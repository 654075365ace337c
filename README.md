# Pizza clicker economy, modelled in Dafny

A browser clicker game ("Cool Pizza Clicker"). Clicking the pizza adds `clickValue` pizzas to
`counter`. Upgrades ("Boosts") can be bought for a price that grows by a multiplier per
level. Each upgrade adds passive production (`perSecond`) and, for Chef Training, extra pizzas
per click. Every animation frame pours `perSecond * dt` into a fractional `accumulator` and
moves its whole part into `counter`.

The model has four modules:

- `Numeric` (numeric.dfy): `Ceil` and `Pow`, exact-real stand-ins for `Math.ceil` and
  `Math.pow`.
- `Catalog` (catalog.dfy): the `Boost` record, the shipped six-entry `Upgrades` catalog,
  the price curve `CostForLevel`, and the two sums the state caches. `Production` is
  Σ level·perLevel. `ClickBonus` is Σ level·(perClick ?? 0).
- `Economy` (economy.dfy): the game state as a value (`GameState`) and its invariant `Inv`.
  It has one function per handler (`Click`, `Purchase`, `Tick`) and runs of events (`Run`).
  The lemmas prove the invariants, conservation, no drift across frames, and the worked
  sessions.
- `PizzaGame` (game.dfy): class `Game`. It holds the four globals as fields and the
  upgrade levels as an `array<nat>` that `Purchase` updates in place. Every method is
  proved to follow the matching `Economy` function and to keep `Valid()`. Each method's
  ensures also states its effect field by field.

## Model

| member | source | states |
|---|---|---|
| Numeric.Ceil | src/main.ts:177 | `Math.ceil`: the result is the least integer not below its argument |
| Numeric.Pow | src/main.ts:177 | `Math.pow` with a whole exponent is positive for a positive base and at least 1 for a base of at least 1 |
| Catalog.CostAtLevelZero | src/main.ts:174-177 | at level 0 the price is exactly `initialCost` when that is a whole number |
| Catalog.AbsentMultiplierIsDefault | src/main.ts:175 | a Boost without `costMultiplier` is priced exactly as one with multiplier 1.15, at every level |
| Catalog.CostMonotone | src/main.ts:173-178 | with multiplier ≥ 1 and a non-negative `initialCost`, the price never falls as the level rises |
| Catalog.CostAtLeastInitial | src/main.ts:173-178 | under the same conditions, every price is a whole number at least `initialCost` |
| Catalog.CostStrictlyIncreasing | src/main.ts:173-178 | with a non-negative `initialCost` and multiplier > 1, the price rises strictly from each level to the next when `initialCost * (multiplier - 1) >= 1` |
| Catalog.CostCanPlateau | src/main.ts:177 | without that condition the rounding up can repeat a price: `initialCost` 1 with the default multiplier costs 2 at level 1 and 2 again at level 2 |
| Catalog.UpgradesWellFormed | src/main.ts:15-71 | no shipped upgrade has a negative `perLevel` or `perClick` |
| Catalog.UpgradePricesStrictlyIncrease | src/main.ts:15-71 | every shipped upgrade's price rises strictly with each level bought |
| Catalog.OvenFirstPrices | src/main.ts:16-24 | the oven costs 10 at level 0 and ceil(11.5) = 12 at level 1 |
| Catalog.Production | src/main.ts:73 | the `reduce` over `level * perLevel` is non-negative whenever every upgrade's `perLevel` is non-negative |
| Catalog.ClickBonus | src/main.ts:204 | the click bonus Σ level·(perClick ?? 0) is non-negative whenever every upgrade's `perClick ?? 0` is non-negative |
| Catalog.SumsAtZeroLevels | src/main.ts:72-75 | with every level 0, production is 0 and the click bonus is 0 |
| Catalog.ProductionAfterLevelUp | src/main.ts:201-202 | raising one level by 1 raises Σ level·perLevel by exactly that upgrade's `perLevel`, so `perSecond += u.perLevel` keeps the cache exact |
| Catalog.ClickBonusAfterLevelUp | src/main.ts:201-204 | raising one level by 1 raises Σ level·perClick by exactly `perClick ?? 0`, so `clickValue += u.perClick ?? 0` keeps the cache exact |
| Economy.Initial | src/main.ts:72-75 | the start state has `perSecond` 0 and `clickValue` 1 and satisfies the invariant |
| Economy.ClickPreservesInv | src/main.ts:156 | a click keeps the invariant and gains at least one pizza |
| Economy.PurchasePreservesInv | src/main.ts:198-206 | a purchase keeps the invariant: the counter stays ≥ 0 and `perSecond` and `clickValue` still equal their sums over the raised levels |
| Economy.PurchaseNoOpIffDisabled | src/main.ts:192-199 | a purchase leaves the state unchanged if and only if the button is disabled (`counter < currentCost`) |
| Economy.PurchaseLevelsGrow | src/main.ts:199-201 | a purchase raises only the bought upgrade's level, by 0 or 1, and never lowers a level |
| Economy.TrainingRaisesClickYield | src/main.ts:198-204 | after buying one Chef Training level (100 pizzas) from clickValue 1, the counter is 0 and the next click grants 2 |
| Economy.TickEffect | src/main.ts:229-234 | with dt ≥ 0, perSecond ≥ 0 and accumulator in [0,1), a frame gains floor(accumulator + perSecond·dt) pizzas. The accumulator ends in [0,1), counter + accumulator grows by exactly perSecond·dt, and nothing else changes |
| Economy.TickPreservesInv | src/main.ts:229-234 | a frame keeps the invariant |
| Economy.IdleTickIsNoOp | src/main.ts:229 | a frame with `perSecond` 0 changes nothing |
| Economy.TickSplit | src/main.ts:229-234 | two frames of d1 and d2 seconds give the same state as one frame of d1 + d2 seconds |
| Economy.TickAllIsOneTick | src/main.ts:225-252 | at a constant rate, any run of frames gives the same state as one frame of their total length |
| Economy.StepPreservesInv | src/main.ts:144-252 | every click, purchase or frame keeps the invariant and never lowers a level. A click or frame never lowers the counter, and a purchase that changes anything lowers it by exactly the price |
| Economy.RunPreservesInv | src/main.ts:144-254 | any sequence of those events keeps the invariant and never lowers a level |
| Economy.ReachableStatesSatisfyInv | src/main.ts:72-75 | every state reachable from page load has counter ≥ 0, accumulator in [0,1), `perSecond` = Σ level·perLevel and `clickValue` = 1 + Σ level·perClick |
| Economy.StepKeepsIdleAccumulatorZero | src/main.ts:198-234 | a click, purchase or frame that leaves `perSecond` at 0 leaves the accumulator at 0, if it was 0 whenever `perSecond` was 0 (production only grows, and the accumulator moves only when `perSecond > 0`) |
| Economy.RunKeepsIdleAccumulatorZero | src/main.ts:144-254 | the same holds across any sequence of events |
| Economy.ReachableIdleAccumulatorZero | src/main.ts:72-75 | in every state reachable from page load, `perSecond` 0 implies accumulator 0, so an idle frame gains nothing and keeps the accumulator at 0 |
| Economy.OvenSession | src/main.ts:16-24 | with the oven alone, 10 clicks, one purchase and a 2-second frame leave counter 1, perSecond 0.5, accumulator 0, level 1 |
| PizzaGame.Game.constructor | src/main.ts:72-75 | the new game is the start state with every level 0, and it is valid |
| PizzaGame.Game.Click | src/main.ts:156 | `counter` grows by exactly `clickValue`; nothing else changes; the invariant holds |
| PizzaGame.Game.Purchase | src/main.ts:198-206 | buys exactly when `counter >= cost`. Then it pays exactly the cost, raises that level by 1 and leaves the others alone, adds `perLevel` to `perSecond` and `perClick ?? 0` to `clickValue`, and keeps the accumulator. Otherwise it changes nothing. The invariant holds |
| PizzaGame.Game.Tick | src/main.ts:229-234 | gains floor(accumulator + perSecond·dt) ≥ 0 pizzas, conserves counter + accumulator up to perSecond·dt, keeps `perSecond` and `clickValue`, and keeps the invariant |
| PizzaGame.Game.RunFrames | src/main.ts:225-252 | repeated frames end in the state of one frame spanning their total duration. They gain a non-negative number of pizzas, conserve counter + accumulator up to perSecond times the total duration, and keep `perSecond` and `clickValue` |

## Left out

- DOM construction, button text, `aria-label`, `toFixed(2)` display and the CSS import are presentation only.
- `spawnFallingPizza` and the per-pizza animation loops are visual effects. They use `Math.random` and `getBoundingClientRect`.
- `requestAnimationFrame` scheduling and the `performance.now()` clock are host I/O. A frame's `dt` is a parameter, and a run of frames is a sequence of durations.
- PizzaGame.Game.Tick, PizzaGame.Game.RunFrames, Economy.Possible: require `dt >= 0` (for `Possible`, in the `Frame` case), as do the frame lemmas in `Economy`. The source does not clamp `dt`. A first frame whose timestamp precedes the initial `performance.now()` reading would give a negative `dt`. That can push the accumulator below 0, and this case is not modelled.
- Floating point is left out. `Math.pow`, the constant 1.15 and the accumulator are exact reals here, so IEEE-754 rounding is not reproduced.
- The order of `commitState()` before the `clickValue` update only affects redraw timing. The final state does not depend on it.
- The price a buy button charges is captured when the button is drawn. That price depends only on the upgrade's `level` (src/main.ts:184). A level changes only in a buy handler, and that handler redraws the list (src/main.ts:203) before any other event can run. The guard itself reads the live `counter` (src/main.ts:199). So the captured price always equals the price at the moment of purchase, which is what the model charges.
- A purchase names an upgrade by its position in the catalog. The handler closes over the record itself, so an unknown upgrade cannot be requested.
- `perClick` is modelled as an integer. The shipped catalog's only value is 1, and a fractional value would make `counter` fractional.
- `id`, `name` and `description` are carried in `Boost` but not used by any operation. Ids are not required to be unique, and the source does not check that either.

## Notes

- Prices are not always strictly increasing. One might expect that, because the multiplier exceeds 1, but `Math.ceil` only makes the price curve non-decreasing (`Catalog.CostCanPlateau` shows a repeat). The price is strictly increasing when `initialCost` is non-negative, the multiplier exceeds 1 and `initialCost * (multiplier - 1) >= 1`, which every shipped upgrade satisfies (`Catalog.UpgradePricesStrictlyIncrease`). The model follows the code.
- The invariants rely on a well-formed catalog: no negative `perLevel` or `perClick`. The source does not check this. The shipped catalog meets it.
