# Missile Command, modelled in Dafny

A model of the game logic of a browser Missile Command game (`test.js`).

The player defends six cities. A click launches a friendly missile from the base towards the click point, at most once per second. Enemy missiles fall from the top edge towards random points on the bottom edge.

Each animation frame (`gameLoop`) does four things in order:

1. Every missile moves one step (`updateMissiles`).
2. A flying friendly missile within its explosion radius of an enemy missile explodes, takes that enemy missile out of the list and scores a point (`checkCollisions`). The enemy speed rises every twenty points.
3. An enemy missile strictly inside the hitbox of a standing city destroys the city and explodes (`checkCityCollisions`).
4. The game-over screen is scheduled once every city is destroyed (`checkGameLost`).

An exploded missile plays a twelve-frame explosion paced by the clock. When the explosion is complete, its next `update` removes it from the lists (`destroy`). `resetGame` restores the score, the enemy speed, the enemy missiles, the cities and the game-over flag, and then runs a frame. The friendly missiles, the base's reload status and the time of the last launch are kept as they were. Finally, the high-score form accepts a player name only if it matches `/^[a-zA-Z0-9]+$/`.

Modules:

- `Geometry` (`geometry.dfy`): points, squared distances, city hitboxes.
- `Sequences` (`sequences.dfy`): the array operations the source uses.
  - `indexOf`, `splice(i, 1)`, subsequences, lists without duplicates.
- `Missiles` (`missiles.dfy`): the missile lifecycle.
  - As pure functions on a `MissileState` value.
  - As the `Missile` class, whose methods update the fields in place and are each proved against the function for their step.
- `Defenses` (`defenses.dfy`): the `City` and `Base` classes.
- `Rules` (`rules.dfy`): the decisions of a frame as pure functions.
  - Cooldown and enemy-speed schedule.
  - Which missiles a `forEach` visits while missiles remove themselves from the list.
  - Which enemy missile each friendly missile hits.
  - Which cities each enemy missile razes.
- `MissileCommand` (`game.dfy`): the `Game` class (`MissileCommandGame`).
  - It holds both missile lists, the cities, the base, the score, the enemy speed and the game-over flag.
  - Each loop of the source is a loop here, whose invariant ties the state to the pure functions of `Rules`.
- `HighScore` (`names.dfy`): the name pattern, `String.prototype.trim`, and the two listeners of the save form.

Modelling choices:

- **Time** is a parameter `now`, one value per frame. The source reads `Date.now()` again inside a frame.
- **The heading step** (`atan2`, `cos`, `sin`) is a parameter `move` of type `Move`, which gives the position one step later.
- **Coordinates** are exact reals.
- **`Math.sqrt(d) < r`** is `RootBelow`: `r > 0 && d < r * r`.
- **The enemy speed** is kept in integer tenths, so `+= 0.2` is exact: 10, 12, …, 30.
  - In IEEE doubles the sum stops after the same ten raises (the tenth gives `3.0000000000000004`, which is not below 3).
- **The module-level `missiles` array** is the field `Game.missiles`.
- **A `forEach` whose callback splices the array** is modelled as JavaScript runs it:
  - the index runs over the length the array had at the start;
  - an element that slides into the index just visited is skipped in that pass (`Rules.Visited`, `Rules.SkippedOnlyAfterRemoval`).
  - So in `updateMissiles` the missile after one that is destroyed does not move in that frame.
  - In `checkCollisions`, the enemy missile after a destroyed one is not tested against that friendly missile. This makes no difference, because that friendly missile has already exploded.
- **`checkGameLost`** returns whether it schedules the game-over callback. `GameOverTimeout` is that callback.
  - So `gameOver` does not imply that every city is destroyed. A pending callback can still fire after `resetGame`.

## Model

| member | source | states |
|---|---|---|
| Missiles.Launched | test.js:19-47 | a new missile is flying: not exploded, frame 0, explosion not complete, in a valid lifecycle state |
| Geometry.RootBelowIsSqrtBelow | test.js:238-239 | `RootBelow(d * d, r)` holds exactly when `d < r`, for every distance `d >= 0`: it is the comparison `Math.sqrt(...) < r` the source makes |
| Missiles.DetonatesAtDistance | test.js:67-73 | with `d` the distance to the target, a missile that has moved detonates exactly when it is an enemy missile at or below y 800, or `d` is below its speed |
| Missiles.Exploded | test.js:80-83 | `explode()` marks the missile exploded and restarts its frame clock at `now`; it no longer flies, and position, frame and completion are unchanged |
| Missiles.AdvanceExplosion | test.js:85-93 | more than 100 ms after the last frame change the frame index moves on by exactly one (the `% 12` never wraps) and the clock restarts; otherwise nothing changes; completion is reached exactly on the step to the last frame |
| Missiles.Updated | test.js:63-79 | `update()`: a flying missile moves to the stepped position and explodes exactly when it detonates (enemy at or below y 800, or closer to its target than its speed); an exploded one stays put and animates; it asks for `destroy()` exactly when its explosion was complete; target, speed and side never change |
| Missiles.Run | test.js:63-97 | over any sequence of frames an exploded missile stays exploded and in place, its frame index never goes back, and a completed one no longer changes |
| Missiles.NoEarlyCompletion | test.js:84-93 | an explosion cannot complete in fewer updates than it has frames left |
| Missiles.ExplosionCompletesOnTime | test.js:84-97 | with updates spaced more than 100 ms apart, an explosion completes after exactly one update per remaining frame, and the next update destroys the missile |
| Missiles.Missile.constructor | test.js:19-47 | the fields of a new `Missile` are the state `Launched` gives |
| Missiles.Missile.Explode | test.js:80-83 | the new fields are `Exploded` of the old ones |
| Missiles.Missile.UpdateExplosionAnimation | test.js:84-97 | returns whether the explosion was complete (the call of `destroy()`); otherwise the new fields are `AdvanceExplosion` of the old ones |
| Missiles.Missile.Update | test.js:63-79 | the new fields and the destroy request are exactly `Updated` of the old fields and the stepped position |
| Defenses.City.constructor | test.js:129-133 | a new city is standing, with the intact sprite |
| Defenses.City.Destroy | test.js:134-137 | the city is destroyed and shows the ruins sprite |
| Defenses.City.GetHitbox | test.js:138-145 | a point is strictly inside the hitbox exactly when it lies strictly between the city's edges, 200 wide and 100 high |
| Defenses.Base.constructor | test.js:115-119 | a new base is reloaded |
| Defenses.Base.UpdateReloadStatus | test.js:125-127 | the reload flag is the given value |
| Sequences.IndexOf | test.js:99-105 | `indexOf`: -1 exactly when the element is absent, otherwise a position holding it with no earlier occurrence |
| Sequences.Delete | test.js:101 | `splice(k, 1)` leaves one element fewer |
| Sequences.DeleteAt | test.js:101 | `splice(k, 1)` keeps the elements before `k` in place, moves every later one down by one, and takes out exactly one copy of the element at `k` |
| Sequences.RemoveFirst | test.js:99-106 | `indexOf` then `splice(i, 1)`: an absent element leaves the list as it was; for a present one, the result is the list without its first occurrence, the rest in their order; one copy is gone (multisets); a list without duplicates stays so and loses the element |
| Rules.RaisedSpeed | test.js:186-190 | `increaseEnemySpeed`: the speed never drops, rises exactly while below 3, and never passes 3 by a whole step |
| Rules.SpeedForScore | test.js:186-190 | the speed the game runs at for a score stays between 1 and 3 |
| Rules.SpeedAfterPoint | test.js:242-246 | after one more point the speed is raised by `increaseEnemySpeed` exactly when the score is a multiple of 20, so it always equals `SpeedForScore` of the score |
| Rules.SpeedMonotone | test.js:242-246 | the enemy speed never goes down as the score grows |
| Rules.CooldownStaysElapsed | test.js:193 | once 1000 ms have passed since the last launch they stay passed as the clock moves on, and they have not passed at the launch itself |
| Rules.Survivors | test.js:212-218 | the missiles still in a list after an update pass are at most as many as before |
| Rules.Visited | test.js:212-218 | which missiles a `forEach` with `splice` visits: one whose predecessor did not remove itself is always visited, and two missiles in a row are never both skipped |
| Rules.SurvivorsWithin | test.js:212-218 | every survivor of a pass was in the list before it |
| Rules.SurvivorsSubsequence | test.js:212-218 | the survivors keep their order |
| Rules.SurvivorsAdvance | test.js:212-218 | a visited missile that removes itself takes the next missile's visit with it; any other missile survives |
| Rules.NextVisited | test.js:212-218 | the next visit is one or two places further on; from a visited missile it is the next visited one, with no visited missile in between |
| Rules.PassStep | test.js:212-218 | one visit with its `splice` turns "survivors so far followed by the rest" into the same shape one visit further on, with the next visited missile at the next index |
| Rules.SurvivorsMembers | test.js:212-218 | in a list without duplicates a missile survives exactly when it was not visited and removed |
| Rules.AllVisitedWithoutRemovals | test.js:212-218 | without removals the pass visits every missile |
| Rules.SkippedOnlyAfterRemoval | test.js:212-218 | a missile is skipped only right after a visited one removed itself, and the one after it is visited again |
| Rules.FirstHit | test.js:236-241 | the first enemy position within the explosion radius, or none; no earlier one is |
| Rules.FirstInside | test.js:260-269 | the first enemy position strictly inside a hitbox, or none; no earlier one is |
| Rules.Aim | test.js:236-241 | the enemy a friendly missile hits: one exists exactly when the friendly missile is flying and some enemy is within the radius, and it is the first such enemy |
| Rules.Intercepted | test.js:234-251 | over a `checkCollisions` pass only flying friendly missiles hit, and there is one hit flag per friendly missile |
| Rules.InterceptedStep | test.js:234-251 | one more friendly missile removes the enemy it aims at and adds one to the hit count, or changes nothing |
| Rules.OneEnemyPerHit | test.js:240-242 | enemies left plus hits equals enemies before: each hit removes exactly one enemy missile |
| Rules.InterceptedKeepsOrder | test.js:240 | the enemy missiles left are a subsequence of those before, each still with its position |
| Rules.Blasted | test.js:241 | friendly missiles that hit have exploded at `now`; the others are unchanged |
| Rules.ScoreCountsExplosions | test.js:241-242 | the points a pass scores equal the number of friendly missiles it made explode |
| Rules.FirstInsidePrefix | test.js:260-269 | the first enemy inside a hitbox among the first `n` is the overall first, when that one comes before `n` |
| Rules.Raze | test.js:262-270 | an enemy missile razes exactly the standing cities whose hitbox holds it strictly inside |
| Rules.FirstStrike | test.js:261-272 | the first standing city an enemy missile is inside; there is one exactly when it strikes some city |
| Rules.CityPass | test.js:259-276 | a `checkCityCollisions` pass keeps one standing flag per city and one strike flag per enemy missile |
| Rules.CityPassStep | test.js:259-276 | one more enemy missile razes what it is inside among the cities still standing, and strikes exactly when there is such a city |
| Rules.CityPassStanding | test.js:259-276 | a city survives the pass exactly when it was standing and no enemy missile is inside its hitbox |
| Rules.CityPassStruck | test.js:259-276 | an enemy missile strikes exactly when it is the first one inside the hitbox of a city that was standing when the pass began |
| MissileCommand.NewCities | test.js:154-161 | six new, standing cities on row 700 at 30, 260, 490, 910, 1140 and 1370 |
| MissileCommand.CityHitboxesDisjoint | test.js:154-161 | the hitboxes of two different cities of the row share no point, so an enemy missile is inside at most one city's hitbox |
| MissileCommand.PassStates | test.js:212-218 | after an update pass a visited missile is in the state `update` gives, and a skipped one keeps its state |
| MissileCommand.PassedOverWithin | test.js:212-218 | a pass only takes missiles out of its list, and an empty list stays empty |
| MissileCommand.PassKeepsExplosions | test.js:63-79 | after an update pass a missile that had exploded is still exploded, at the same position |
| MissileCommand.ExplodedStayPut | test.js:63-79 | the missiles whose fields are the states of a pass: those that had exploded are exploded at the same coordinates |
| MissileCommand.BlastedStayPut | test.js:241 | the missiles whose fields are the states `Blasted` gives: none has moved, and an exploded one is still exploded |
| MissileCommand.MovedValid | test.js:210-218 | the missiles left after an update pass are in valid states, and no missile is added; an empty list stays empty |
| MissileCommand.InterceptedSceneBounds | test.js:234-251 | `checkCollisions` keeps every state valid, keeps the friendly list's length, never adds an enemy missile, never lowers the score, and leaves the cities, the base and the launch time alone |
| MissileCommand.RazedSceneBounds | test.js:259-276 | `checkCityCollisions` keeps every state valid, keeps both lists' lengths and the friendly missiles, leaves the score, the base and the launch time alone, and a city in ruins stays in ruins |
| MissileCommand.FrameBounds | test.js:317-319 | a frame keeps every missile state valid, adds no missile to either list and never lowers the score; ruins stay ruins; the base shows reloaded once the cooldown has elapsed; the launch time is unchanged |
| MissileCommand.FrameScore | test.js:317-319 | the points a frame scores equal the number of friendly missiles it made explode, and equal the number of enemy missiles it took out of the list |
| MissileCommand.InterceptedNothing | test.js:234-251 | against no enemy missile no friendly missile hits, no enemy is left, and no point is scored |
| MissileCommand.QuietFrame | test.js:317-319 | a frame without enemy missiles only moves the friendly missiles and updates the base: there are still no enemy missiles, and the score and the cities stay as they were |
| MissileCommand.InterceptedStates | test.js:234-251 | which friendly missiles hit, and which enemies remain, depends only on the enemies' positions, so the pass on the objects and the pass on their states agree |
| MissileCommand.PassAtStep | test.js:212-218 | one visit keeps the pass invariant: survivors so far followed by the missiles still to visit, with visited missiles in their new state |
| MissileCommand.Game.constructor | test.js:148-168 | the start state: no missiles, score 0, speed 1, not over, base reloaded, six standing cities in their places |
| MissileCommand.Game.ViewValid | test.js:19-97 | in a valid game every missile in either list is in a valid lifecycle state |
| MissileCommand.Game.UpdateMissiles | test.js:210-222 | each list is left holding the survivors of its pass and each missile in the state `PassStates` gives; the base shows reloaded once the cooldown has elapsed, otherwise it keeps its status; score, speed and game-over flag are unchanged |
| MissileCommand.Game.Reload | test.js:219-221 | the base shows reloaded exactly when the cooldown has elapsed or it already did; no missile changes |
| MissileCommand.Game.UpdateEach | test.js:212-218 | one `forEach(update)` pass over one list: that list and its missiles end as `PassedOver` says, and the other list and its missiles are untouched |
| MissileCommand.Game.Pass | test.js:212-218 | the loop of the pass ends with the survivors in the list and every missile in its `PassStates` state |
| MissileCommand.Game.Visit | test.js:212-214 | one index of the pass keeps the pass invariant |
| MissileCommand.Game.UpdateAt | test.js:212-214 | the visited missile is in the `Step` state and leaves its list exactly when its explosion was complete; the other list and every other missile are unchanged |
| MissileCommand.Game.DestroyAt | test.js:95-106 | `destroy()` of a listed missile deletes it from its own list; the other list is unchanged |
| MissileCommand.Game.Destroy | test.js:98-107 | each list loses the first occurrence of the missile, if any |
| MissileCommand.Game.IncreaseEnemySpeed | test.js:186-190 | the new speed is `RaisedSpeed` of the old |
| MissileCommand.Game.LaunchMissile | test.js:191-201 | accepted exactly when 1000 ms have passed since the last launch; then exactly one new friendly missile from (800, 750) at speed 5 towards the click is appended, the base shows reloading and the launch time is `now`; otherwise nothing changes |
| MissileCommand.Game.SpawnEnemyMissile | test.js:202-205 | one new enemy missile from the top edge, at the current enemy speed, is appended |
| MissileCommand.Game.CheckCollisions | test.js:234-251 | the enemy list, the score and the friendly missiles end as `Intercepted` and `Blasted` say: the score rises by the number of hits, every enemy missile left was in the list before, and with no enemy missile neither the list nor the score changes |
| MissileCommand.Game.CollidedAll | test.js:234-251 | the loop invariant at the end of the outer `forEach` gives the postcondition |
| MissileCommand.Game.Collide | test.js:235-250 | one friendly missile moves the loop invariant one step, as `InterceptedStep` says |
| MissileCommand.Game.Intercept | test.js:236-249 | a friendly missile removes the enemy `Aim` picks, explodes and scores one point, or changes nothing; other friendly missiles are unchanged |
| MissileCommand.Game.Round | test.js:236-249 | one index of the inner `forEach` keeps its invariant: a hit happens exactly at the index `Aim` picks |
| MissileCommand.Game.Hit | test.js:240-246 | the hit enemy leaves the list, the friendly missile explodes, the score rises by one, and the speed follows the score |
| MissileCommand.Game.DropEnemy | test.js:240 | `splice(enemyIndex, 1)` deletes exactly that enemy missile and its position |
| MissileCommand.Game.ExplodeAt | test.js:241 | only the friendly missile at that index explodes |
| MissileCommand.Game.ScorePoint | test.js:242-246 | the score rises by one and the game stays valid, so the speed is still `SpeedForScore` of the score |
| MissileCommand.Game.CheckCityCollisions | test.js:259-276 | the cities and the enemy missiles end as `CityPass` and `Blasted` say; the lists, the friendly missiles and the score are unchanged; ruins stay ruins; with no enemy missile no city is even in its frame |
| MissileCommand.Game.RazedAll | test.js:259-276 | the loop invariant at the end of the outer `forEach` gives the postcondition |
| MissileCommand.Game.Strike | test.js:260-275 | one enemy missile against every city moves the outer invariant one step, as `CityPassStep` says |
| MissileCommand.Game.StrikeBegins | test.js:260-261 | the inner loop starts from where the outer one stands |
| MissileCommand.Game.StrikeEnds | test.js:260-275 | the end of the inner loop is the next step of the outer one |
| MissileCommand.Game.Raid | test.js:261-274 | one city against the enemy missile keeps the inner invariant: a standing city whose hitbox strictly holds the missile is destroyed, and the missile explodes |
| MissileCommand.Game.Demolish | test.js:270-271 | `city.destroy(); enemyMissile.explode()` keeps the inner invariant |
| MissileCommand.Game.DestroyCity | test.js:270 | only that city is destroyed |
| MissileCommand.Game.BlastEnemy | test.js:271 | only that enemy missile explodes |
| MissileCommand.Game.CheckGameLost | test.js:307-314 | the game-over callback is scheduled exactly when every city is destroyed; nothing in the game changes |
| MissileCommand.Game.AllDestroyedView | test.js:308 | `every(city => city.isDestroyed)` holds exactly when the game's view has no city standing |
| MissileCommand.Game.GameOverTimeout | test.js:309-312 | the game is over |
| MissileCommand.Game.Tick | test.js:315-324 | once the game is over a call changes nothing at all (the game, its base, its missiles and its cities) and schedules nothing; otherwise the game becomes `AfterFrame` of what it was, the friendly list holds the survivors of its pass, and the game over is scheduled exactly when every city is destroyed; without enemy missiles the cities are unchanged; a missile that had exploded is still exploded at the same coordinates |
| MissileCommand.Game.Frame | test.js:317-319 | the game becomes `AfterFrame` of what it was, with the friendly list holding the survivors of its pass and every enemy missile one that was there; without enemy missiles the cities are outside its frame; a missile that had exploded is still exploded at the same coordinates |
| MissileCommand.Game.Movement | test.js:317 | `updateMissiles()`: the game becomes `MovedScene` of what it was, each list holds the survivors of its pass, the score, speed, game-over flag and cities are untouched, and an exploded missile stays exploded where it was |
| MissileCommand.Game.Interception | test.js:318 | the call of `checkCollisions()` in a frame: the game becomes `InterceptedScene` of what it was, every enemy missile left was there before, the friendly list is the same list, and a missile that had exploded is still exploded at the same coordinates |
| MissileCommand.Game.Collisions | test.js:234-251 | `checkCollisions()` seen on the whole game: the game becomes `InterceptedScene` of what it was, the friendly list is the same list and every enemy missile left was there before |
| MissileCommand.Game.InterceptionView | test.js:234-251 | the lists, score and states `checkCollisions` leaves are, seen as a scene, `InterceptedScene` of the scene before it |
| MissileCommand.Game.Bombardment | test.js:319 | `checkCityCollisions()`: the game becomes `RazedScene` of what it was, the lists and score are untouched, with no enemy missile no city is in its frame, and no missile moves |
| MissileCommand.Game.Hits | test.js:318-319 | the two collision passes of a frame together: the game becomes `RazedScene` of `InterceptedScene` of what it was, the friendly list is the same list, every enemy missile left was there before, and a missile that had exploded is still exploded at the same coordinates |
| MissileCommand.Game.ResetGame | test.js:293-306 | after the reset and its first frame: not over, score 0, speed 1, no enemy missile, every city standing with its intact sprite, no game over scheduled; the friendly list holds the survivors of one update pass, in the states `Moved` gives; the base shows reloaded once the cooldown has elapsed; the launch time is kept |
| MissileCommand.Game.Restore | test.js:293-303 | score 0, speed 1, no enemy missile, not over, and every city standing with its intact sprite; the friendly list and the states of its missiles are untouched |
| MissileCommand.Game.QuietTick | test.js:315-324 | `gameLoop()` on a running game without enemy missiles: the cities, the score and the enemy speed are unchanged and no enemy missile appears; the friendly list holds the survivors of one update pass in the states `Moved` gives; the base shows reloaded once the cooldown has elapsed; the game over is scheduled exactly when every city is destroyed |
| HighScore.ValidName | test.js:359 | `/^[a-zA-Z0-9]+$/`: an accepted name holds no character that `trim` removes |
| HighScore.Leading | test.js:372 | the number of leading characters `trim` removes: all of them are trimmed characters, and the next one is not |
| HighScore.TrimEnd | test.js:372 | a prefix that ends with a kept character, followed only by trimmed characters |
| HighScore.Trim | test.js:372 | `trim()` is the part of the string after its leading trimmed characters, followed only by trimmed characters, and it starts and ends with a kept character |
| HighScore.TrimAccepted | test.js:367-372 | `trim` leaves every accepted name unchanged |
| HighScore.PaddedRejected | test.js:367-372 | a name that `trim` would change is never accepted |
| HighScore.BlurMessage | test.js:358-365 | the blur listener clears the message exactly for an accepted name, and otherwise shows "Symbols are not allowed." |
| HighScore.SaveClick | test.js:366-383 | the save listener saves exactly the accepted names, with the record holding the name as typed and the score, and confirms with "High score saved for ", the name as typed and "!"; it rejects every other input with "Invalid characters in input." |
| HighScore.BlurAgreesWithSave | test.js:358-372 | the blur warning appears exactly for the inputs the save button rejects |

## Left out

- **Drawing.** All `draw*` methods, sprites as images, `clearRect`/`drawImage` and the rotation of missile sprites are not modelled. Sprites are kept as their file names only, because the city's sprite is part of its state.
- **The DOM.** The score text, the screens shown and hidden, and the game-over screen (`showGameOverScreen`, `menu`, `startGame`, `playAgain`, `goBack`, `goBackScores`) are left out. They only display state.
- **Event wiring.** Listener registration, the `focus` listener, the `focus()`/`blur()` calls after a save, and clearing the input are left out. So is the mapping of `clientX`/`clientY` through `getBoundingClientRect`: `LaunchMissile` takes canvas coordinates.
- **Timers.**
  - `requestAnimationFrame`: each `Tick` is one frame.
  - The two-second `setTimeout` re-spawning enemies: `SpawnEnemyMissile` is one spawn.
  - The 1300 ms game-over delay: `CheckGameLost` returns whether the callback is scheduled, and `GameOverTimeout` is the callback.
  - How these callbacks interleave is not modelled.
- **Randomness.** The `Math.random()` abscissas in `spawnEnemyMissile` are parameters.
- **Trigonometry and floating point.**
  - The heading step is the parameter `move`.
  - Positions are exact reals.
  - `Math.sqrt` comparisons are squared comparisons.
  - The enemy speed is in exact tenths.
- **The clock.** `Date.now()` is the parameter `now`, one value per call. The source reads the clock separately inside one frame.
- **Network I/O.** `showHighScores` (the `fetch` of `scores.json` and the table it fills) and `console.log`/`console.error` are left out.
- MissileCommand.Game.constructor: does not include the `gameLoop()` and `spawnEnemyMissile()` calls the source constructor ends with. They are the operations `Tick` and `SpawnEnemyMissile`.
- MissileCommand.Game.CheckCollisions: does not record the order in which friendly missiles explode within the pass, only the final states.
- MissileCommand.Game.CheckCityCollisions: does not record the order in which cities fall within the pass, only the final states.
