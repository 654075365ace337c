/** The game economy as values: the state the four globals and the upgrade levels
    make up, one function per event handler, and the invariants they keep. The
    class Game in module PizzaGame is proved to follow these functions. */
module Economy {
  import opened Numeric
  import opened Catalog

  /** The globals `counter`, `perSecond`, `accumulator`, `clickValue` and the
      `level` of each upgrade, in catalog order. */
  datatype GameState = GameState(
    counter: int,
    perSecond: real,
    accumulator: real,
    clickValue: int,
    levels: seq<nat>)

  /** What the state promises between events: a non-negative counter, a fractional
      accumulator, and the two cached sums agreeing with the levels. */
  predicate Inv(catalog: seq<Boost>, s: GameState) {
    && |s.levels| == |catalog|
    && s.counter >= 0
    && 0.0 <= s.accumulator < 1.0
    && s.perSecond == Production(catalog, s.levels)
    && s.clickValue == 1 + ClickBonus(catalog, s.levels)
  }

  /** The state at page load: nothing owned, perSecond from the `reduce` over the
      levels, clickValue 1. */
  function Initial(catalog: seq<Boost>): (s: GameState)
    ensures Inv(catalog, s)
    ensures s.perSecond == 0.0 && s.clickValue == 1
  {
    var zeros: seq<nat> := seq(|catalog|, _ => 0);
    SumsAtZeroLevels(catalog, zeros);
    GameState(0, Production(catalog, zeros), 0.0, 1, zeros)
  }

  // ---------------------------------------------------------------- click

  /** The pizza button: `counter += clickValue`. */
  function Click(s: GameState): GameState {
    s.(counter := s.counter + s.clickValue)
  }

  /** A click keeps the invariant and gains at least one unit. */
  lemma ClickPreservesInv(catalog: seq<Boost>, s: GameState)
    requires WellFormed(catalog) && Inv(catalog, s)
    ensures Inv(catalog, Click(s))
    ensures Click(s).counter >= s.counter + 1
  {
  }

  // ---------------------------------------------------------------- purchase

  /** The price shown on upgrade i's button and charged by its handler. */
  function Price(catalog: seq<Boost>, s: GameState, i: nat): int
    requires i < |catalog| == |s.levels|
  {
    CostForLevel(catalog[i], s.levels[i])
  }

  /** The button of upgrade i is disabled: `counter < currentCost`. */
  predicate Disabled(catalog: seq<Boost>, s: GameState, i: nat)
    requires i < |catalog| == |s.levels|
  {
    s.counter < Price(catalog, s, i)
  }

  /** The buy handler of upgrade i: when `counter >= currentCost`, pay, raise the
      level, and add the upgrade's production and click bonus; otherwise nothing. */
  function Purchase(catalog: seq<Boost>, s: GameState, i: nat): (t: GameState)
    requires i < |catalog| == |s.levels|
    ensures |t.levels| == |s.levels|
  {
    var cost := Price(catalog, s, i);
    if s.counter >= cost then
      GameState(
        s.counter - cost,
        s.perSecond + catalog[i].perLevel,
        s.accumulator,
        s.clickValue + PerClick(catalog[i]),
        s.levels[i := s.levels[i] + 1])
    else s
  }

  /** A purchase keeps the invariant: the counter stays non-negative and both cached
      sums still agree with the raised level. */
  lemma PurchasePreservesInv(catalog: seq<Boost>, s: GameState, i: nat)
    requires Inv(catalog, s) && i < |catalog|
    ensures Inv(catalog, Purchase(catalog, s, i))
  {
    if !Disabled(catalog, s, i) {
      ProductionAfterLevelUp(catalog, s.levels, i);
      ClickBonusAfterLevelUp(catalog, s.levels, i);
    }
  }

  /** A purchase leaves the state exactly as it was if and only if the button is
      disabled. */
  lemma PurchaseNoOpIffDisabled(catalog: seq<Boost>, s: GameState, i: nat)
    requires i < |catalog| == |s.levels|
    ensures Purchase(catalog, s, i) == s <==> Disabled(catalog, s, i)
  {
  }

  /** A purchase never lowers a level and raises at most upgrade i's, by one. */
  lemma PurchaseLevelsGrow(catalog: seq<Boost>, s: GameState, i: nat)
    requires i < |catalog| == |s.levels|
    ensures var t := Purchase(catalog, s, i);
      && t.levels[i] - s.levels[i] in {0, 1}
      && forall j :: 0 <= j < |s.levels| && j != i ==> t.levels[j] == s.levels[j]
  {
  }

  /** After buying a level of an upgrade with a click bonus of 1 from the base
      state, the next click grants 2. */
  lemma TrainingRaisesClickYield()
    ensures var s := GameState(100, 0.0, 0.0, 1, [0]);
      var t := Purchase([Upgrades[5]], s, 0);
      t.counter == 0 && Click(t).counter == 2
  {
  }

  // ---------------------------------------------------------------- tick

  /** One animation frame of `dt` seconds: when perSecond > 0, add perSecond * dt
      to the accumulator and, once it reaches 1, move its whole part into counter. */
  function Tick(s: GameState, dt: real): GameState {
    if s.perSecond > 0.0 then
      var acc := s.accumulator + s.perSecond * dt;
      if acc >= 1.0 then
        var toAdd := acc.Floor;
        s.(counter := s.counter + toAdd, accumulator := acc - toAdd as real)
      else
        s.(accumulator := acc)
    else
      s
  }

  /** A frame with a fractional accumulator, a non-negative rate and a non-negative
      dt gains floor(accumulator + perSecond * dt) whole units, leaves a fractional
      accumulator, conserves counter + accumulator up to perSecond * dt, and touches
      nothing else. */
  lemma TickEffect(s: GameState, dt: real)
    requires 0.0 <= s.accumulator < 1.0 && s.perSecond >= 0.0 && dt >= 0.0
    ensures var t := Tick(s, dt);
      && t.counter == s.counter + (s.accumulator + s.perSecond * dt).Floor
      && t.counter >= s.counter
      && 0.0 <= t.accumulator < 1.0
      && t.counter as real + t.accumulator == s.counter as real + s.accumulator + s.perSecond * dt
      && t.perSecond == s.perSecond && t.clickValue == s.clickValue && t.levels == s.levels
  {
    MulNonNeg(s.perSecond, dt);
  }

  /** A frame keeps the invariant. */
  lemma TickPreservesInv(catalog: seq<Boost>, s: GameState, dt: real)
    requires WellFormed(catalog) && Inv(catalog, s) && dt >= 0.0
    ensures Inv(catalog, Tick(s, dt))
  {
  }

  /** With nothing owned that produces, a frame changes nothing. */
  lemma IdleTickIsNoOp(s: GameState, dt: real)
    requires s.perSecond == 0.0
    ensures Tick(s, dt) == s
  {
  }

  /** Splitting a whole number plus a fraction in [0, 1) is unique. */
  lemma WholeAndFractionUnique(c1: int, a1: real, c2: int, a2: real)
    requires 0.0 <= a1 < 1.0 && 0.0 <= a2 < 1.0
    requires c1 as real + a1 == c2 as real + a2
    ensures c1 == c2 && a1 == a2
  {
  }

  /** No drift: two frames of d1 and d2 seconds end in the same state as one frame
      of d1 + d2 seconds. */
  lemma TickSplit(s: GameState, d1: real, d2: real)
    requires 0.0 <= s.accumulator < 1.0 && s.perSecond >= 0.0
    requires d1 >= 0.0 && d2 >= 0.0
    ensures Tick(Tick(s, d1), d2) == Tick(s, d1 + d2)
  {
    var s1 := Tick(s, d1);
    TickEffect(s, d1);
    TickEffect(s1, d2);
    TickEffect(s, d1 + d2);
    var t, u := Tick(s1, d2), Tick(s, d1 + d2);
    assert s.perSecond * (d1 + d2) == s.perSecond * d1 + s.perSecond * d2;
    WholeAndFractionUnique(t.counter, t.accumulator, u.counter, u.accumulator);
  }

  /** Total length of a run of frames. */
  function Sum(dts: seq<real>): real {
    if dts == [] then 0.0 else dts[0] + Sum(dts[1..])
  }

  /** One frame after another. */
  function TickAll(s: GameState, dts: seq<real>): GameState
    decreases |dts|
  {
    if dts == [] then s else TickAll(Tick(s, dts[0]), dts[1..])
  }

  /** No drift over any run of frames: at a constant rate, the frames together end
      in the same state as one frame spanning their total length. */
  lemma {:induction false} TickAllIsOneTick(s: GameState, dts: seq<real>)
    requires 0.0 <= s.accumulator < 1.0 && s.perSecond >= 0.0
    requires forall k :: 0 <= k < |dts| ==> dts[k] >= 0.0
    ensures Sum(dts) >= 0.0
    ensures TickAll(s, dts) == Tick(s, Sum(dts))
    decreases |dts|
  {
    if dts != [] {
      var s1 := Tick(s, dts[0]);
      TickEffect(s, dts[0]);
      TickAllIsOneTick(s1, dts[1..]);
      TickSplit(s, dts[0], Sum(dts[1..]));
    }
  }

  // ---------------------------------------------------------------- sessions

  /** What the page reacts to: the pizza button, buy button i, an animation frame. */
  datatype Event = Clicked | Bought(index: nat) | Frame(dt: real)

  /** Events the page can produce: a button of an existing upgrade, a frame that
      does not go back in time. */
  predicate Possible(catalog: seq<Boost>, e: Event) {
    match e
    case Clicked => true
    case Bought(i) => i < |catalog|
    case Frame(dt) => dt >= 0.0
  }

  function Step(catalog: seq<Boost>, s: GameState, e: Event): GameState
    requires |s.levels| == |catalog| && Possible(catalog, e)
  {
    match e
    case Clicked => Click(s)
    case Bought(i) => Purchase(catalog, s, i)
    case Frame(dt) => Tick(s, dt)
  }

  /** The state after a session's events, in order. */
  function Run(catalog: seq<Boost>, s: GameState, events: seq<Event>): (t: GameState)
    requires |s.levels| == |catalog|
    requires forall k :: 0 <= k < |events| ==> Possible(catalog, events[k])
    ensures |t.levels| == |catalog|
    decreases |events|
  {
    if events == [] then s
    else Run(catalog, Step(catalog, s, events[0]), events[1..])
  }

  /** Every event keeps the invariant, never lowers a level and never lowers the
      counter except by a purchase's price. */
  lemma StepPreservesInv(catalog: seq<Boost>, s: GameState, e: Event)
    requires WellFormed(catalog) && Inv(catalog, s) && Possible(catalog, e)
    ensures var t := Step(catalog, s, e);
      && Inv(catalog, t)
      && (forall j :: 0 <= j < |s.levels| ==> t.levels[j] >= s.levels[j])
      && (!e.Bought? ==> t.counter >= s.counter)
      && (e.Bought? && t != s ==> t.counter == s.counter - Price(catalog, s, e.index))
  {
    match e
    case Clicked => ClickPreservesInv(catalog, s);
    case Bought(i) => PurchasePreservesInv(catalog, s, i); PurchaseLevelsGrow(catalog, s, i);
    case Frame(dt) => TickPreservesInv(catalog, s, dt);
  }

  /** Any session keeps the invariant and never lowers a level. */
  lemma {:induction false} RunPreservesInv(catalog: seq<Boost>, s: GameState, events: seq<Event>)
    requires WellFormed(catalog) && Inv(catalog, s)
    requires forall k :: 0 <= k < |events| ==> Possible(catalog, events[k])
    ensures var t := Run(catalog, s, events);
      && Inv(catalog, t)
      && forall j :: 0 <= j < |s.levels| ==> t.levels[j] >= s.levels[j]
    decreases |events|
  {
    if events != [] {
      var s1 := Step(catalog, s, events[0]);
      StepPreservesInv(catalog, s, events[0]);
      RunPreservesInv(catalog, s1, events[1..]);
    }
  }

  /** Every state reachable from page load satisfies the invariant. */
  lemma ReachableStatesSatisfyInv(catalog: seq<Boost>, events: seq<Event>)
    requires WellFormed(catalog)
    requires forall k :: 0 <= k < |events| ==> Possible(catalog, events[k])
    ensures Inv(catalog, Run(catalog, Initial(catalog), events))
  {
    RunPreservesInv(catalog, Initial(catalog), events);
  }

  /** An event never leaves an idle game (perSecond 0) with a partial pizza in the
      accumulator, provided it did not have one before. */
  lemma StepKeepsIdleAccumulatorZero(catalog: seq<Boost>, s: GameState, e: Event)
    requires WellFormed(catalog) && Inv(catalog, s) && Possible(catalog, e)
    requires s.perSecond == 0.0 ==> s.accumulator == 0.0
    ensures var t := Step(catalog, s, e);
      t.perSecond == 0.0 ==> t.accumulator == 0.0
  {
    match e
    case Clicked =>
    case Bought(i) =>
      PurchaseLevelsGrow(catalog, s, i);
    case Frame(dt) =>
  }

  /** Any session keeps an idle game's accumulator at 0. */
  lemma {:induction false} RunKeepsIdleAccumulatorZero(catalog: seq<Boost>, s: GameState, events: seq<Event>)
    requires WellFormed(catalog) && Inv(catalog, s)
    requires forall k :: 0 <= k < |events| ==> Possible(catalog, events[k])
    requires s.perSecond == 0.0 ==> s.accumulator == 0.0
    ensures var t := Run(catalog, s, events);
      t.perSecond == 0.0 ==> t.accumulator == 0.0
    decreases |events|
  {
    if events != [] {
      var s1 := Step(catalog, s, events[0]);
      StepPreservesInv(catalog, s, events[0]);
      StepKeepsIdleAccumulatorZero(catalog, s, events[0]);
      RunKeepsIdleAccumulatorZero(catalog, s1, events[1..]);
    }
  }

  /** In every state reachable from page load, a game that produces nothing holds no
      partial pizza, so an idle frame adds nothing and keeps the accumulator at 0. */
  lemma ReachableIdleAccumulatorZero(catalog: seq<Boost>, events: seq<Event>)
    requires WellFormed(catalog)
    requires forall k :: 0 <= k < |events| ==> Possible(catalog, events[k])
    ensures var t := Run(catalog, Initial(catalog), events);
      t.perSecond == 0.0 ==> t.accumulator == 0.0
  {
    RunKeepsIdleAccumulatorZero(catalog, Initial(catalog), events);
  }

  /** A whole session with the oven alone: ten clicks pay for it, it then produces
      0.5 per second, and a 2-second frame turns that into exactly one pizza. */
  lemma OvenSession()
    ensures var oven := [Upgrades[0]];
      var s := Run(oven, Initial(oven), seq(10, _ => Clicked) + [Bought(0), Frame(2.0)]);
      s == GameState(1, 0.5, 0.0, 1, [1])
  {
    var oven := [Upgrades[0]];
    var s0 := Initial(oven);
    assert s0 == GameState(0, 0.0, 0.0, 1, [0]);
    var s := s0;
    var clicks: seq<Event> := seq(10, _ => Clicked);
    var k := 0;
    while k < 10
      invariant 0 <= k <= 10
      invariant s == GameState(k, 0.0, 0.0, 1, [0])
      invariant Run(oven, s0, clicks + [Bought(0), Frame(2.0)])
             == Run(oven, s, clicks[k..] + [Bought(0), Frame(2.0)])
    {
      var rest := clicks[k..] + [Bought(0), Frame(2.0)];
      assert rest[0] == Clicked && rest[1..] == clicks[k + 1..] + [Bought(0), Frame(2.0)];
      s := Click(s);
      k := k + 1;
    }
    assert clicks[10..] + [Bought(0), Frame(2.0)] == [Bought(0), Frame(2.0)];
    CostAtLevelZero(Upgrades[0], 10);
    var s1 := Purchase(oven, s, 0);
    assert s1 == GameState(0, 0.5, 0.0, 1, [1]);
    assert Run(oven, s, [Bought(0), Frame(2.0)]) == Run(oven, s1, [Frame(2.0)]);
    assert Tick(s1, 2.0) == GameState(1, 0.5, 0.0, 1, [1]);
  }
}
