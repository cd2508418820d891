/** The game itself (`class MissileCommandGame`): the lists of friendly
    and enemy missiles, the six cities, the base, the score, the enemy speed
    and the game-over flag, and the operations one frame and the player's
    clicks perform on them. */
module MissileCommand {
  import opened Geometry
  import opened Sequences
  import opened Missiles
  import opened Defenses
  import opened Rules

  /** The six cities stand on one row, at these abscissas. */
  const CityColumns := [30.0, 260.0, 490.0, 910.0, 1140.0, 1370.0]
  const CityRow := 700.0

  /** The `cities` array of a new game: six new cities, standing, on
      their row at their abscissas. */
  method NewCities() returns (cs: seq<City>)
    ensures |cs| == |CityColumns|
    ensures forall k :: 0 <= k < |cs| ==>
              fresh(cs[k]) && cs[k].x == CityColumns[k] && cs[k].y == CityRow
              && !cs[k].isDestroyed && cs[k].sprite == CitySprite
  {
    var c0 := new City(30.0, 700.0);
    var c1 := new City(260.0, 700.0);
    var c2 := new City(490.0, 700.0);
    var c3 := new City(910.0, 700.0);
    var c4 := new City(1140.0, 700.0);
    var c5 := new City(1370.0, 700.0);
    cs := [c0, c1, c2, c3, c4, c5];
  }

  /** The hitboxes of two different cities of the row share no point, so
      an enemy missile is ever inside at most one city. */
  lemma CityHitboxesDisjoint(p: Point, i: nat, j: nat)
    requires i < j < |CityColumns|
    ensures !(StrictlyInside(p, Hitbox(CityColumns[i], CityRow, CityWidth, CityHeight))
              && StrictlyInside(p, Hitbox(CityColumns[j], CityRow, CityWidth, CityHeight)))
  {
    assert CityColumns[i] + CityWidth < CityColumns[j];
  }

  /** Where a friendly missile starts, and how fast it flies. */
  const LaunchOrigin := Point(800.0, 750.0)
  const PlayerMissileSpeed := 5.0

  /** The fields of each missile of a list, as values. */
  function States(s: seq<Missile>): (r: seq<MissileState>)
    reads s
    ensures |r| == |s|
    ensures forall i :: 0 <= i < |s| ==> r[i] == s[i].State()
  {
    seq(|s|, i reads s requires 0 <= i < |s| => s[i].State())
  }

  /** The position of each missile of a list. */
  function Positions(s: seq<Missile>): (r: seq<Point>)
    reads s
    ensures |r| == |s|
    ensures forall i :: 0 <= i < |s| ==> r[i] == s[i].State().pos
  {
    seq(|s|, i reads s requires 0 <= i < |s| => s[i].State().pos)
  }

  /** The explosion-complete flag of each missile state. */
  function CompleteFlags(s: seq<MissileState>): (r: seq<bool>)
    ensures |r| == |s|
    ensures forall i :: 0 <= i < |s| ==> r[i] == s[i].explosionComplete
  {
    seq(|s|, i requires 0 <= i < |s| => s[i].explosionComplete)
  }

  /** Which cities of a list are standing. */
  function Standing(cs: seq<City>): (r: seq<bool>)
    reads cs
    ensures |r| == |cs|
    ensures forall k :: 0 <= k < |cs| ==> r[k] == !cs[k].isDestroyed
  {
    seq(|cs|, k reads cs requires 0 <= k < |cs| => !cs[k].isDestroyed)
  }

  /** The hitbox of each city of a list. */
  function Hitboxes(cs: seq<City>): (r: seq<Hitbox>)
    ensures |r| == |cs|
    ensures forall k :: 0 <= k < |cs| ==> r[k] == cs[k].GetHitbox()
  {
    seq(|cs|, k requires 0 <= k < |cs| => cs[k].GetHitbox())
  }

  /** What one `update()` call does to a missile in state `s`. */
  function Step(s: MissileState, move: Move, now: int): Outcome
  {
    Updated(s, move(s.pos, s.target, s.speed), now)
  }

  /** The states a `forEach(missile => missile.update())` pass leaves the
      missiles of a list in, from their states `olds` before it: a missile
      the pass visits is in the state `update` gives, one it skips keeps its
      state. */
  function PassStates(olds: seq<MissileState>, move: Move, now: int): (r: seq<MissileState>)
    ensures |r| == |olds|
    ensures forall j :: 0 <= j < |olds| ==>
              r[j] == if Visited(CompleteFlags(olds), j) then Step(olds[j], move, now).next else olds[j]
  {
    var gone := CompleteFlags(olds);
    seq(|olds|, j requires 0 <= j < |olds| =>
      if Visited(gone, j) then Step(olds[j], move, now).next else olds[j])
  }

  /** What one `forEach(missile => missile.update())` pass does to a list
      `before` whose missiles were in states `olds`: the states `news` it
      leaves them in are those of `PassStates` (every missile visited is in
      the state `update` gives, every missile the pass skips keeps its
      state), and the list `after` holds the missiles that were not visited
      while complete, in their order. */
  ghost predicate PassedOver(before: seq<Missile>, olds: seq<MissileState>, after: seq<Missile>,
                             news: seq<MissileState>, move: Move, now: int)
  {
    |olds| == |before|
    && (forall j :: 0 <= j < |olds| ==> olds[j].Valid())
    && after == Survivors(before, CompleteFlags(olds), |before|)
    && news == PassStates(olds, move, now)
  }

  /** A pass leaves an exploded missile exploded where it was. */
  lemma PassKeepsExplosions(olds: seq<MissileState>, move: Move, now: int)
    ensures forall j :: 0 <= j < |olds| && olds[j].isExploded ==>
              PassStates(olds, move, now)[j].isExploded && PassStates(olds, move, now)[j].pos == olds[j].pos
  {
  }

  /** The missiles of a list in the states a pass leaves them in: those
      that were exploded are exploded at the same place. */
  lemma ExplodedStayPut(ms: seq<Missile>, olds: seq<MissileState>, move: Move, now: int)
    requires States(ms) == PassStates(olds, move, now)
    ensures forall j :: 0 <= j < |ms| && olds[j].isExploded ==>
              ms[j].isExploded && ms[j].x == olds[j].pos.x && ms[j].y == olds[j].pos.y
  {
    PassKeepsExplosions(olds, move, now);
    forall j | 0 <= j < |ms| && olds[j].isExploded
      ensures ms[j].isExploded && ms[j].x == olds[j].pos.x && ms[j].y == olds[j].pos.y
    {
      assert States(ms)[j] == ms[j].State();
    }
  }

  /** The missiles of a list in the states `Blasted` leaves them in:
      none has moved, and those that were exploded still are. */
  lemma BlastedStayPut(ms: seq<Missile>, olds: seq<MissileState>, hits: seq<bool>, now: int)
    requires |hits| == |olds|
    requires States(ms) == Blasted(olds, hits, now)
    ensures forall j :: 0 <= j < |ms| ==>
              ms[j].x == olds[j].pos.x && ms[j].y == olds[j].pos.y
              && (olds[j].isExploded ==> ms[j].isExploded)
  {
    forall j | 0 <= j < |ms|
      ensures ms[j].x == olds[j].pos.x && ms[j].y == olds[j].pos.y
              && (olds[j].isExploded ==> ms[j].isExploded)
    {
      assert States(ms)[j] == ms[j].State();
    }
  }

  /** A pass only ever takes missiles out of its list. */
  lemma PassedOverWithin(before: seq<Missile>, olds: seq<MissileState>, after: seq<Missile>,
                         news: seq<MissileState>, move: Move, now: int)
    requires PassedOver(before, olds, after, news, move, now)
    ensures |after| <= |before| && (before == [] ==> after == [])
    ensures forall i :: 0 <= i < |after| ==> after[i] in before
  {
    SurvivorsWithin(before, CompleteFlags(olds), |before|);
    assert before[..|before|] == before;
  }

  /** The states of the missiles still in a list after a
      `forEach(missile => missile.update())` pass over missiles in states
      `olds`, in their order. */
  function Moved(olds: seq<MissileState>, move: Move, now: int): (r: seq<MissileState>)
  {
    Survivors(PassStates(olds, move, now), CompleteFlags(olds), |olds|)
  }

  /** The position of each missile state of a list. */
  function PositionsOf(ss: seq<MissileState>): (r: seq<Point>)
    ensures |r| == |ss|
    ensures forall i :: 0 <= i < |ss| ==> r[i] == ss[i].pos
  {
    seq(|ss|, i requires 0 <= i < |ss| => ss[i].pos)
  }

  /** A game between two steps of a frame, as values: the states of the
      friendly and of the enemy missiles in list order, which cities stand,
      the score, whether the base shows reloaded and when the last
      friendly missile was launched. */
  datatype Scene = Scene(friendly: seq<MissileState>, enemy: seq<MissileState>, standing: seq<bool>,
                         score: int, reloaded: bool, lastLaunch: int)
  {
    /** Every missile in a valid lifecycle state. */
    predicate Valid()
    {
      (forall j :: 0 <= j < |friendly| ==> friendly[j].Valid())
      && (forall j :: 0 <= j < |enemy| ==> enemy[j].Valid())
    }
  }

  /** `updateMissiles()`: both lists after their update pass, and the base
      reloaded once the cooldown has elapsed. */
  function MovedScene(s: Scene, move: Move, now: int): Scene
  {
    s.(friendly := Moved(s.friendly, move, now), enemy := Moved(s.enemy, move, now),
       reloaded := CooldownElapsed(now, s.lastLaunch) || s.reloaded)
  }

  /** `checkCollisions()`: the friendly missiles that hit have exploded,
      the enemy missiles they hit are gone, and each hit scored a point. */
  function InterceptedScene(s: Scene, now: int): Scene
  {
    var r := Intercepted(s.friendly, s.enemy, PositionsOf(s.enemy));
    s.(friendly := Blasted(s.friendly, r.hits, now), enemy := r.enemies, score := s.score + Count(r.hits))
  }

  /** `checkCityCollisions()` against cities with hitboxes `boxes`: the
      cities struck are in ruins and the enemy missiles that struck have
      exploded. */
  function RazedScene(s: Scene, boxes: seq<Hitbox>, now: int): Scene
    requires |s.standing| == |boxes|
  {
    var c := CityPass(s.standing, boxes, PositionsOf(s.enemy));
    s.(enemy := Blasted(s.enemy, c.struck, now), standing := c.standing)
  }

  /** One frame of `gameLoop()` while the game runs, on cities with
      hitboxes `boxes`: the missiles move, then the friendly explosions
      take out enemy missiles, then the enemy missiles take out cities. */
  function AfterFrame(s: Scene, boxes: seq<Hitbox>, move: Move, now: int): Scene
    requires |s.standing| == |boxes|
  {
    RazedScene(InterceptedScene(MovedScene(s, move, now), now), boxes, now)
  }

  /** The update pass keeps every state valid, keeps the survivors in
      their order and never adds a missile; an exploded missile stays
      exploded where it was. */
  lemma {:induction false} MovedValid(olds: seq<MissileState>, move: Move, now: int)
    requires forall j :: 0 <= j < |olds| ==> olds[j].Valid()
    ensures var r := Moved(olds, move, now);
            |r| <= |olds| && (olds == [] ==> r == [])
            && forall j :: 0 <= j < |r| ==> r[j].Valid()
  {
    var ps := PassStates(olds, move, now);
    SurvivorsWithin(ps, CompleteFlags(olds), |olds|);
    assert ps[..|olds|] == ps;
    forall j | 0 <= j < |Moved(olds, move, now)|
      ensures Moved(olds, move, now)[j].Valid()
    {
      var x := Moved(olds, move, now)[j];
      assert x in ps;
    }
  }

  /** Each friendly missile that hits explodes and takes one enemy missile
      out of the list: the states stay valid, the enemies left are some of
      those there were, and the score never drops. */
  lemma {:induction false} InterceptedSceneBounds(s: Scene, now: int)
    requires s.Valid()
    ensures var r := InterceptedScene(s, now);
            r.Valid() && |r.friendly| == |s.friendly| && |r.enemy| <= |s.enemy| && r.score >= s.score
            && r.standing == s.standing && r.reloaded == s.reloaded && r.lastLaunch == s.lastLaunch
  {
    var r := Intercepted(s.friendly, s.enemy, PositionsOf(s.enemy));
    InterceptedKeepsOrder(s.friendly, s.enemy, PositionsOf(s.enemy));
    SubsequenceMembers(r.enemies, s.enemy);
    OneEnemyPerHit(s.friendly, s.enemy, PositionsOf(s.enemy));
    forall j | 0 <= j < |r.enemies|
      ensures r.enemies[j].Valid()
    {
      assert r.enemies[j] in s.enemy;
    }
  }

  /** Each enemy missile inside a standing city razes it and explodes: the
      states stay valid, no missile leaves, and a city in ruins stays in
      ruins. */
  lemma RazedSceneBounds(s: Scene, boxes: seq<Hitbox>, now: int)
    requires s.Valid() && |s.standing| == |boxes|
    ensures var r := RazedScene(s, boxes, now);
            r.Valid() && r.friendly == s.friendly && |r.enemy| == |s.enemy| && r.score == s.score
            && |r.standing| == |s.standing| && r.reloaded == s.reloaded && r.lastLaunch == s.lastLaunch
            && forall k :: 0 <= k < |boxes| && !s.standing[k] ==> !r.standing[k]
  {
    forall k | 0 <= k < |boxes| && !s.standing[k]
      ensures !RazedScene(s, boxes, now).standing[k]
    {
      CityPassStanding(s.standing, boxes, PositionsOf(s.enemy), k);
    }
  }

  /** A frame keeps every missile state valid, never adds a missile to
      either list and never lowers the score; a city in ruins stays in
      ruins; the base shows reloaded once the cooldown has elapsed, and
      the launch clock is left alone. */
  lemma FrameBounds(s: Scene, boxes: seq<Hitbox>, move: Move, now: int)
    requires s.Valid() && |s.standing| == |boxes|
    ensures var r := AfterFrame(s, boxes, move, now);
            r.Valid() && |r.friendly| <= |s.friendly| && |r.enemy| <= |s.enemy|
            && r.score >= s.score && |r.standing| == |s.standing|
            && (forall k :: 0 <= k < |boxes| && !s.standing[k] ==> !r.standing[k])
            && r.reloaded == (CooldownElapsed(now, s.lastLaunch) || s.reloaded)
            && r.lastLaunch == s.lastLaunch
  {
    MovedValid(s.friendly, move, now);
    MovedValid(s.enemy, move, now);
    var m := MovedScene(s, move, now);
    InterceptedSceneBounds(m, now);
    RazedSceneBounds(InterceptedScene(m, now), boxes, now);
  }

  /** The score a frame adds is the number of friendly missiles it made
      explode, and each of those points took one enemy missile out of its
      list. */
  lemma {:induction false} FrameScore(s: Scene, boxes: seq<Hitbox>, move: Move, now: int)
    requires s.Valid() && |s.standing| == |boxes|
    ensures var m := MovedScene(s, move, now);
            var r := AfterFrame(s, boxes, move, now);
            r.score - s.score == NewlyExploded(m.friendly, r.friendly)
            && r.score - s.score == |m.enemy| - |r.enemy|
  {
    var m := MovedScene(s, move, now);
    var r := Intercepted(m.friendly, m.enemy, PositionsOf(m.enemy));
    OneEnemyPerHit(m.friendly, m.enemy, PositionsOf(m.enemy));
    ScoreCountsExplosions(m.friendly, r.hits, now);
  }

  /** Against an empty enemy list no friendly missile hits anything. */
  lemma {:induction false} InterceptedNothing<T>(ps: seq<MissileState>)
    ensures var r := Intercepted<T>(ps, [], []);
            r.enemies == [] && r.positions == [] && Count(r.hits) == 0
            && forall q :: 0 <= q < |ps| ==> !r.hits[q]
    decreases |ps|
  {
    if ps != [] {
      var n := |ps| - 1;
      InterceptedNothing<T>(ps[..n]);
      var r := Intercepted<T>(ps[..n], [], []);
      assert (r.hits + [false])[..|r.hits|] == r.hits;
    }
  }

  /** A frame without enemy missiles only moves the friendly missiles and
      updates the base: no enemy missile appears, the score and the cities
      stay as they are. */
  lemma QuietFrame(s: Scene, boxes: seq<Hitbox>, move: Move, now: int)
    requires |s.standing| == |boxes| && s.enemy == []
    ensures var r := AfterFrame(s, boxes, move, now);
            r.enemy == [] && r.score == s.score && r.standing == s.standing
            && r.friendly == Moved(s.friendly, move, now)
            && r.reloaded == (CooldownElapsed(now, s.lastLaunch) || s.reloaded)
            && r.lastLaunch == s.lastLaunch
  {
    MovedValid(s.enemy, move, now);
    var m := MovedScene(s, move, now);
    InterceptedNothing<MissileState>(m.friendly);
    assert Blasted(m.friendly, Intercepted(m.friendly, m.enemy, PositionsOf(m.enemy)).hits, now) == m.friendly;
  }

  /** The states of the survivors of a pass are the survivors of their
      states. */
  lemma {:induction false} StatesOfSurvivors(s: seq<Missile>, gone: seq<bool>, p: nat)
    requires |s| == |gone| && p <= |s|
    ensures States(Survivors(s, gone, p)) == Survivors(States(s), gone, p)
    decreases p
  {
    if p > 0 {
      StatesOfSurvivors(s, gone, p - 1);
      var prev := Survivors(s, gone, p - 1);
      assert States(prev + [s[p - 1]]) == States(prev) + [s[p - 1].State()];
    }
  }

  /** Removing a missile from a list removes its state from their states. */
  lemma StatesDelete(s: seq<Missile>, k: nat)
    requires k < |s|
    ensures States(Delete(s, k)) == Delete(States(s), k)
  {
  }

  /** Which friendly missiles hit, and which enemy missiles are left,
      depends on the enemies' positions only: the states of the enemy
      missiles left are the enemy states left. */
  lemma {:induction false} InterceptedStates(ps: seq<MissileState>, es: seq<Missile>, pos: seq<Point>)
    requires |es| == |pos|
    ensures var r, r' := Intercepted(ps, es, pos), Intercepted(ps, States(es), pos);
            States(r.enemies) == r'.enemies && r.positions == r'.positions && r.hits == r'.hits
    decreases |ps|
  {
    if ps != [] {
      var n := |ps| - 1;
      InterceptedStates(ps[..n], es, pos);
      var r := Intercepted(ps[..n], es, pos);
      var k := Aim(ps[n], r.positions);
      if k < |r.positions| {
        StatesDelete(r.enemies, k);
      }
    }
  }

  /** Where a `forEach(missile => missile.update())` pass over a list that
      started as `orig`, in states `olds`, stands once it has passed over
      the first `p` missiles, `i` of which are still in the list: the list
      holds the survivors so far followed by the missiles still to visit,
      missile `p` is the one visited next, at index `i`, and the missiles
      passed over are in the states `target` the pass leaves them in. */
  ghost predicate PassAt(orig: seq<Missile>, olds: seq<MissileState>, target: seq<MissileState>,
                         p: nat, i: nat, list: seq<Missile>, states: seq<MissileState>)
  {
    |olds| == |orig| == |target| == |states| && p <= |orig|
    && list == Survivors(orig, CompleteFlags(olds), p) + orig[p..]
    && (p < |orig| ==> i == |Survivors(orig, CompleteFlags(olds), p)| && Visited(CompleteFlags(olds), p))
    && (p == |orig| ==> i >= |list|)
    && (forall j :: 0 <= j < |states| ==> states[j] == if j < p then target[j] else olds[j])
  }

  /** The missile at index `i` is the `p`-th of the pass, in its state from
      before the pass, and (the list having no duplicates) it is not among
      the survivors before it. */
  lemma PassAtCurrent(orig: seq<Missile>, olds: seq<MissileState>, target: seq<MissileState>,
                      p: nat, i: nat, list: seq<Missile>, states: seq<MissileState>)
    requires PassAt(orig, olds, target, p, i, list, states) && i < |list|
    ensures p < |orig| && list[i] == orig[p] && states[p] == olds[p]
    ensures Distinct(orig) ==> list[i] !in list[..i]
  {
    var surv := Survivors(orig, CompleteFlags(olds), p);
    SpliceJoin(surv, orig[p..]);
    if Distinct(orig) {
      SurvivorsWithin(orig, CompleteFlags(olds), p);
      DistinctNotBefore(orig, p);
    }
  }

  /** The pass starts at the first missile, with nothing passed over. */
  lemma PassAtStart(orig: seq<Missile>, olds: seq<MissileState>, target: seq<MissileState>)
    requires |olds| == |orig| == |target|
    ensures PassAt(orig, olds, target, 0, 0, orig, olds)
  {
    assert orig[0..] == orig;
  }

  /** Once the index runs past the list, every missile has been passed
      over; the pass goes on counting without visiting anything. */
  lemma PassAtIdle(orig: seq<Missile>, olds: seq<MissileState>, target: seq<MissileState>,
                   p: nat, i: nat, list: seq<Missile>, states: seq<MissileState>)
    requires PassAt(orig, olds, target, p, i, list, states) && i >= |list|
    ensures p == |orig| && PassAt(orig, olds, target, p, i + 1, list, states)
  {
  }

  /** When the index reaches the length the list had at the start, the pass
      is over: the list holds the survivors and every state is `target`. */
  lemma PassAtEnd(orig: seq<Missile>, olds: seq<MissileState>, target: seq<MissileState>,
                  p: nat, list: seq<Missile>, states: seq<MissileState>)
    requires PassAt(orig, olds, target, p, |orig|, list, states)
    ensures list == Survivors(orig, CompleteFlags(olds), |orig|) && states == target
  {
    assert p == |orig|;
    assert list == Survivors(orig, CompleteFlags(olds), |orig|) + orig[|orig|..];
  }

  /** The states after one more missile passed over: when missile `p`,
      and missile `p + 1` too when the pass skips it, take their states
      from `target` and all others keep theirs, the first `q` states are
      those of `target`. */
  lemma MixedStep(target: seq<MissileState>, olds: seq<MissileState>, p: nat, q: nat,
                  states: seq<MissileState>, states': seq<MissileState>)
    requires |target| == |olds| == |states| == |states'| && p < q <= |olds|
    requires q == p + 1 || (q == p + 2 && target[p + 1] == olds[p + 1])
    requires forall j :: 0 <= j < |states| ==> states[j] == if j < p then target[j] else olds[j]
    requires states'[p] == target[p]
    requires forall j :: 0 <= j < |states| && j != p ==> states'[j] == states[j]
    ensures forall j :: 0 <= j < |states'| ==> states'[j] == if j < q then target[j] else olds[j]
  {
  }

  /** One visit moves the pass on to the next missile it visits: the
      visited missile takes its state from `target` and, when it was
      complete, leaves the list. */
  lemma PassAtStep(orig: seq<Missile>, olds: seq<MissileState>, target: seq<MissileState>,
                   p: nat, i: nat, list: seq<Missile>, states: seq<MissileState>,
                   list': seq<Missile>, states': seq<MissileState>, move: Move, now: int)
    requires PassAt(orig, olds, target, p, i, list, states) && i < |list|
    requires (forall j :: 0 <= j < |olds| ==> olds[j].Valid()) && target == PassStates(olds, move, now)
    requires list' == if olds[p].explosionComplete then Delete(list, i) else list
    requires |states'| == |states| && states'[p] == target[p]
    requires forall j :: 0 <= j < |states| && j != p ==> states'[j] == states[j]
    ensures PassAt(orig, olds, target, NextVisited(CompleteFlags(olds), p), i + 1, list', states')
  {
    var gone := CompleteFlags(olds);
    PassAtCurrent(orig, olds, target, p, i, list, states);
    PassStep(orig, gone, p);
    var q := NextVisited(gone, p);
    assert q == p + 2 ==> target[p + 1] == olds[p + 1];
    MixedStep(target, olds, p, q, states, states');
  }

  class Game {
    /** The friendly missiles (the module-level `missiles` array). */
    var missiles: seq<Missile>
    var enemyMissiles: seq<Missile>
    const cities: seq<City>
    const base: Base
    var score: int
    /** `enemySpeed`, in tenths. */
    var enemySpeed: int
    var gameOver: bool
    var lastPlayerMissileTime: int

    /** The game's invariant: the six cities in their places, lists without
        duplicates, friendly missiles only in `missiles` and enemy ones only
        in `enemyMissiles`, every missile in a valid lifecycle state, and an
        enemy speed that follows the score. */
    ghost predicate Valid()
      reads this, missiles, enemyMissiles, cities
    {
      |cities| == |CityColumns|
      && (forall k :: 0 <= k < |cities| ==> cities[k].x == CityColumns[k] && cities[k].y == CityRow)
      && (forall c :: c in cities ==> (c.isDestroyed <==> c.sprite == RuinsSprite))
      && Distinct(missiles) && Distinct(enemyMissiles)
      && (forall m :: m in missiles ==> m.Valid() && !m.isEnemy)
      && (forall m :: m in enemyMissiles ==> m.Valid() && m.isEnemy)
      && score >= 0 && enemySpeed == SpeedForScore(score)
    }

    /** `cities.every(city => city.isDestroyed)`. */
    predicate AllCitiesDestroyed()
      reads this, cities
    {
      forall k :: 0 <= k < |cities| ==> cities[k].isDestroyed
    }

    /** The game is lost exactly when its view has no city standing, so a
      frame (which keeps ruins in ruins, `FrameBounds`) never undoes it. */
    lemma AllDestroyedView()
      ensures AllCitiesDestroyed() <==> forall k :: 0 <= k < |View().standing| ==> !View().standing[k]
    {
      assert View().standing == Standing(cities);
    }

    /** The state `new MissileCommandGame(...)` sets up, before its first
        frame and its first enemy missile. */
    constructor ()
      ensures Valid()
      ensures missiles == [] && enemyMissiles == []
      ensures score == 0 && enemySpeed == InitialEnemySpeed && !gameOver
      ensures lastPlayerMissileTime == 0 && base.isReloaded
      ensures |cities| == 6
      ensures forall k :: 0 <= k < |cities| ==> !cities[k].isDestroyed && cities[k].sprite == CitySprite
      ensures forall k :: 0 <= k < |cities| ==> cities[k].x == CityColumns[k] && cities[k].y == CityRow
    {
      var cs := NewCities();
      cities := cs;
      missiles := [];
      enemyMissiles := [];
      score := 0;
      enemySpeed := InitialEnemySpeed;
      gameOver := false;
      base := new Base(750.0, 700.0);
      lastPlayerMissileTime := 0;
    }

    /** No city occurs twice: each stands at its own abscissa. */
    lemma CitiesDistinct()
      requires Valid()
      ensures Distinct(cities)
    {
      forall i, j | 0 <= i < j < |cities|
        ensures Differ(cities, i, j)
      {
        assert cities[i].x == CityColumns[i] != CityColumns[j] == cities[j].x;
      }
    }

    /** The missiles of the enemy list or of the friendly list. */
    function List(enemies: bool): seq<Missile>
      reads this
    {
      if enemies then enemyMissiles else missiles
    }

    /** Either list of a valid game has no duplicates and holds valid
        missiles of its own side only. */
    lemma ListFacts(enemies: bool)
      requires Valid()
      ensures Distinct(List(enemies))
      ensures forall m :: m in List(enemies) ==> m.Valid() && m.isEnemy == enemies
    {
    }

    /** `updateMissiles()`: one update pass over the friendly missiles, then
        one over the enemy missiles, then the base shows reloaded when the
        cooldown has elapsed (otherwise it keeps its status). */
    method UpdateMissiles(now: int, move: Move)
      requires Valid()
      modifies this`missiles, this`enemyMissiles, missiles, enemyMissiles, base
      ensures Valid()
      ensures unchanged(this`score)
      ensures unchanged(this`enemySpeed)
      ensures unchanged(this`gameOver)
      ensures PassedOver(old(missiles), old(States(missiles)), missiles,
                         States(old(missiles)), move, now)
      ensures PassedOver(old(enemyMissiles), old(States(enemyMissiles)), enemyMissiles,
                         States(old(enemyMissiles)), move, now)
      ensures base.isReloaded == (CooldownElapsed(now, lastPlayerMissileTime) || old(base.isReloaded))
      ensures forall m: Missile :: old(allocated(m)) && old(m.isExploded) ==>
                m.isExploded && m.x == old(m.x) && m.y == old(m.y)
    {
      ghost var friendly, enemy := missiles, enemyMissiles;
      ListFacts(false);
      ListFacts(true);
      UpdateEach(false, now, move, friendly, States(friendly), enemy, States(enemy));
      UpdateEach(true, now, move, enemy, States(enemy), friendly, States(friendly));
      Reload(now, friendly, enemy);
    }

    /** The end of `updateMissiles()`: the base shows reloaded once the
        cooldown has elapsed; no missile changes, among them those of `a`
        and `b`. */
    method Reload(now: int, ghost a: seq<Missile>, ghost b: seq<Missile>)
      modifies base
      ensures base.isReloaded == (CooldownElapsed(now, lastPlayerMissileTime) || old(base.isReloaded))
      ensures Valid() == old(Valid())
      ensures States(a) == old(States(a)) && States(b) == old(States(b))
    {
      if now - lastPlayerMissileTime >= PlayerMissileCooldown {
        base.UpdateReloadStatus(true);
      }
    }

    /** One `forEach(missile => missile.update())` over the enemy list or
        the friendly list, `orig`, whose missiles are in states `olds`; a
        missile whose update ends in `destroy()` leaves both lists at once,
        and the pass does not visit the missile that slides into its place.
        The other list is left alone, and so is every missile of the other
        side, `kept`. */
    method UpdateEach(enemies: bool, now: int, move: Move, ghost orig: seq<Missile>,
                      ghost olds: seq<MissileState>, ghost kept: seq<Missile>,
                      ghost keptStates: seq<MissileState>)
      requires Valid() && orig == List(enemies) && olds == States(orig)
      requires (forall m :: m in kept ==> m.isEnemy != enemies) && keptStates == States(kept)
      modifies this`missiles, this`enemyMissiles, orig
      ensures Valid()
      ensures List(!enemies) == old(List(!enemies)) && States(kept) == keptStates
      ensures lastPlayerMissileTime == old(lastPlayerMissileTime) && base.isReloaded == old(base.isReloaded)
      ensures gameOver == old(gameOver)
      ensures PassedOver(orig, olds, List(enemies), States(orig), move, now)
      ensures forall m: Missile :: old(allocated(m)) && old(m.isExploded) ==>
                m.isExploded && m.x == old(m.x) && m.y == old(m.y)
    {
      ListFacts(enemies);
      assert forall m :: m in kept ==> m !in orig;
      Pass(enemies, now, move, orig, olds, List(!enemies));
      forall i | 0 <= i < |kept|
        ensures States(kept)[i] == keptStates[i]
      {
        assert kept[i] in kept;
      }
      ExplodedStayPut(orig, olds, move, now);
      forall m: Missile | old(allocated(m)) && old(m.isExploded)
        ensures m.isExploded && m.x == old(m.x) && m.y == old(m.y)
      {
        if m in orig {
          var j :| 0 <= j < |orig| && orig[j] == m;
          assert olds[j] == old(m.State());
        }
      }
    }

    /** The pass itself, from the list `orig` in states `olds` to the
        survivors in the states `PassStates` gives. */
    method Pass(enemies: bool, now: int, move: Move, ghost orig: seq<Missile>,
                ghost olds: seq<MissileState>, ghost other: seq<Missile>)
      requires Valid() && orig == List(enemies) && olds == States(orig) && other == List(!enemies)
      modifies this`missiles, this`enemyMissiles, orig
      ensures Valid() && List(!enemies) == other
      ensures lastPlayerMissileTime == old(lastPlayerMissileTime) && base.isReloaded == old(base.isReloaded)
      ensures List(enemies) == Survivors(orig, CompleteFlags(olds), |orig|)
      ensures (forall j :: 0 <= j < |olds| ==> olds[j].Valid())
              && States(orig) == PassStates(olds, move, now)
    {
      ListFacts(enemies);
      assert forall j :: 0 <= j < |olds| ==> olds[j].Valid();
      ghost var target := PassStates(olds, move, now);
      PassAtStart(orig, olds, target);
      ghost var lastLaunch, reloaded := lastPlayerMissileTime, base.isReloaded;
      var n := |List(enemies)|;
      var i := 0;
      ghost var p := 0;
      while i < n
        invariant 0 <= i <= n == |orig|
        invariant PassUpTo(enemies, orig, olds, target, p, i, other)
        invariant lastPlayerMissileTime == lastLaunch && base.isReloaded == reloaded
        decreases n - i
      {
        p := Visit(enemies, i, now, move, orig, olds, target, other, p);
        i := i + 1;
      }
      PassAtEnd(orig, olds, target, p, List(enemies), States(orig));
    }

    /** The state of a `forEach` pass over the enemy or friendly list that
        started on `orig`, in states `olds`, and has passed over its first
        `p` missiles, `i` of them still in the list: the game is valid, the
        other list is `other`, the list is the survivors so far followed by
        the missiles still to visit, which is visited next, and the missiles
        passed over are in the states `target` the pass leaves them in. */
    ghost predicate PassUpTo(enemies: bool, orig: seq<Missile>, olds: seq<MissileState>,
                             target: seq<MissileState>, p: nat, i: nat, other: seq<Missile>)
      reads this, missiles, enemyMissiles, cities, orig
    {
      Valid() && List(!enemies) == other
      && PassAt(orig, olds, target, p, i, List(enemies), States(orig))
    }

    /** One round of the pass, at index `i`: when the index is still in
        the list, the visit of the missile there, the `p`-th of the pass:
        its `update()`, and the `destroy()` that may end it, which takes it
        out of its list so that the next missile is not visited. */
    method Visit(enemies: bool, i: nat, now: int, move: Move, ghost orig: seq<Missile>,
                 ghost olds: seq<MissileState>, ghost target: seq<MissileState>,
                 ghost other: seq<Missile>, ghost p: nat)
      returns (ghost p': nat)
      requires PassUpTo(enemies, orig, olds, target, p, i, other)
      requires Distinct(orig) && (forall m :: m in orig ==> m.isEnemy == enemies)
      requires forall j :: 0 <= j < |olds| ==> olds[j].Valid()
      requires target == PassStates(olds, move, now)
      modifies this`missiles, this`enemyMissiles, orig
      ensures PassUpTo(enemies, orig, olds, target, p', i + 1, other)
      ensures lastPlayerMissileTime == old(lastPlayerMissileTime) && base.isReloaded == old(base.isReloaded)
    {
      ghost var list := List(enemies);
      ghost var before := States(orig);
      if i < |List(enemies)| {
        PassAtCurrent(orig, olds, target, p, i, list, before);
        var destroy := UpdateAt(enemies, i, now, move, orig);
        ghost var after := States(orig);
        forall j | 0 <= j < |orig| && j != p
          ensures after[j] == before[j]
        {
          DistinctAt(orig, j, p);
        }
        PassAtStep(orig, olds, target, p, i, list, before, List(enemies), after, move, now);
        p' := NextVisited(CompleteFlags(olds), p);
      } else {
        PassAtIdle(orig, olds, target, p, i, list, before);
        p' := p;
      }
    }

    /** The visit of the missile at position `i` of the enemy or friendly
        list: its `update()`, and the `destroy()` that may end it, which
        takes it out of its list. */
    method UpdateAt(enemies: bool, i: nat, now: int, move: Move, ghost others: seq<Missile>)
      returns (destroy: bool)
      requires Valid() && i < |List(enemies)|
      requires List(enemies)[i] !in List(enemies)[..i]
      modifies this`missiles, this`enemyMissiles, List(enemies)[i]
      ensures Valid()
      ensures List(!enemies) == old(List(!enemies))
      ensures destroy == old(List(enemies)[i].State()).explosionComplete
      ensures old(List(enemies))[i].State() == Step(old(List(enemies)[i].State()), move, now).next
      ensures List(enemies) == if destroy then Delete(old(List(enemies)), i) else old(List(enemies))
      ensures lastPlayerMissileTime == old(lastPlayerMissileTime) && base.isReloaded == old(base.isReloaded)
      ensures forall j :: 0 <= j < |others| && others[j] != old(List(enemies)[i]) ==>
                others[j].State() == old(others[j].State())
    {
      var missile := List(enemies)[i];
      ListFacts(!enemies);
      assert missile !in List(!enemies);
      destroy := missile.Update(now, move);
      if destroy {
        DestroyAt(enemies, i);
      }
    }

    /** `destroy()` of the missile at position `i` of the enemy or friendly
        list, which occurs there first: it leaves that list, and the other
        list does not hold it. */
    method DestroyAt(enemies: bool, i: nat)
      requires Valid() && i < |List(enemies)|
      requires List(enemies)[i] !in List(enemies)[..i]
      modifies this`missiles, this`enemyMissiles
      ensures Valid()
      ensures List(!enemies) == old(List(!enemies))
      ensures List(enemies) == Delete(old(List(enemies)), i)
      ensures lastPlayerMissileTime == old(lastPlayerMissileTime) && base.isReloaded == old(base.isReloaded)
    {
      var missile := List(enemies)[i];
      RemoveFirstAt(List(enemies), i);
      ListFacts(!enemies);
      assert missile !in List(!enemies);
      Destroy(missile);
    }

    /** `increaseEnemySpeed()`. */
    method IncreaseEnemySpeed()
      modifies this`enemySpeed
      ensures enemySpeed == RaisedSpeed(old(enemySpeed))
    {
      if enemySpeed < EnemySpeedLimit {
        enemySpeed := enemySpeed + EnemySpeedStep;
      }
    }

    /** `launchMissile(event)`, with the click already mapped to canvas
        coordinates `target`. Accepted exactly when the cooldown has
        elapsed; then one friendly missile is appended, the base shows
        reloading and the launch time is recorded; otherwise nothing
        changes. */
    method LaunchMissile(now: int, target: Point) returns (accepted: bool)
      requires Valid()
      modifies this`missiles, this`lastPlayerMissileTime, base
      ensures Valid()
      ensures accepted <==> CooldownElapsed(now, old(lastPlayerMissileTime))
      ensures accepted ==>
                |missiles| == |old(missiles)| + 1
                && missiles == old(missiles) + [missiles[|missiles| - 1]]
                && fresh(missiles[|missiles| - 1])
                && missiles[|missiles| - 1].State()
                   == Launched(LaunchOrigin, target, PlayerMissileSpeed, false)
                && !base.isReloaded && lastPlayerMissileTime == now
      ensures !accepted ==>
                missiles == old(missiles) && base.isReloaded == old(base.isReloaded)
                && lastPlayerMissileTime == old(lastPlayerMissileTime)
    {
      accepted := now - lastPlayerMissileTime >= PlayerMissileCooldown;
      if accepted {
        var missile := new Missile(LaunchOrigin.x, LaunchOrigin.y, target.x, target.y,
                                   PlayerMissileSpeed, false);
        DistinctAppend(missiles, missile);
        missiles := missiles + [missile];
        base.UpdateReloadStatus(false);
        lastPlayerMissileTime := now;
      }
    }

    /** The body of `spawnEnemyMissile()`, with the two random abscissas and
        the canvas height as parameters: appends one enemy missile falling
        from the top edge at the current enemy speed. */
    method SpawnEnemyMissile(startX: real, targetX: real, canvasHeight: real)
      requires Valid()
      modifies this`enemyMissiles
      ensures Valid()
      ensures |enemyMissiles| == |old(enemyMissiles)| + 1
      ensures enemyMissiles == old(enemyMissiles) + [enemyMissiles[|enemyMissiles| - 1]]
      ensures fresh(enemyMissiles[|enemyMissiles| - 1])
      ensures enemyMissiles[|enemyMissiles| - 1].State()
              == Launched(Point(startX, 0.0), Point(targetX, canvasHeight),
                          enemySpeed as real / 10.0, true)
    {
      var enemyMissile := new Missile(startX, 0.0, targetX, canvasHeight,
                                      enemySpeed as real / 10.0, true);
      DistinctAppend(enemyMissiles, enemyMissile);
      enemyMissiles := enemyMissiles + [enemyMissile];
    }

    /** `destroy()` of missile `m`: removes its first occurrence from each
        list that holds it. */
    method Destroy(m: Missile)
      modifies this`missiles, this`enemyMissiles
      ensures missiles == RemoveFirst(old(missiles), m)
      ensures enemyMissiles == RemoveFirst(old(enemyMissiles), m)
    {
      var missileIndex := IndexOf(missiles, m);
      if missileIndex != -1 {
        missiles := Delete(missiles, missileIndex);
      }
      var enemyMissileIndex := IndexOf(enemyMissiles, m);
      if enemyMissileIndex != -1 {
        enemyMissiles := Delete(enemyMissiles, enemyMissileIndex);
      }
    }

    /** `checkCollisions()`: every friendly missile, in order, against the
        enemy list as the ones before it left it. A flying friendly missile
        that is closer than its explosion radius to an enemy missile takes
        the first such enemy out of the list, explodes and scores a point;
        the enemy speed rises at every twentieth point. */
    method CheckCollisions(now: int)
      requires Valid()
      modifies this`enemyMissiles, this`score, this`enemySpeed, missiles
      ensures Valid() && unchanged(this`missiles, this`gameOver)
      ensures var r := Intercepted(old(States(missiles)), old(enemyMissiles), old(Positions(enemyMissiles)));
              enemyMissiles == r.enemies && score == old(score) + Count(r.hits)
              && States(missiles) == Blasted(old(States(missiles)), r.hits, now)
      ensures |enemyMissiles| <= |old(enemyMissiles)| && score >= old(score)
      ensures forall i :: 0 <= i < |enemyMissiles| ==> enemyMissiles[i] in old(enemyMissiles)
      ensures old(enemyMissiles) == [] ==> enemyMissiles == [] && score == old(score)
    {
      ghost var olds, es, pos := States(missiles), enemyMissiles, Positions(enemyMissiles);
      ghost var score0 := score;
      for q := 0 to |missiles|
        invariant Collided(q, now, olds, es, pos, score0) && gameOver == old(gameOver)
      {
        Collide(q, now, olds, es, pos, score0);
      }
      CollidedAll(now, olds, es, pos, score0);
      OneEnemyPerHit(olds, es, pos);
      InterceptedKeepsOrder(olds, es, pos);
      SubsequenceMembers(enemyMissiles, es);
    }

    /** Once every friendly missile has been tried. */
    lemma CollidedAll(now: int, olds: seq<MissileState>, es: seq<Missile>, pos: seq<Point>, score0: int)
      requires Collided(|olds|, now, olds, es, pos, score0)
      ensures var r := Intercepted(olds, es, pos);
              enemyMissiles == r.enemies && score == score0 + Count(r.hits)
              && States(missiles) == Blasted(olds, r.hits, now)
    {
      assert olds[..|olds|] == olds;
    }

    /** Where the outer `forEach` of `checkCollisions` stands once the
        friendly missiles below index `q`, which were in states `olds`,
        have been tried against the enemies `es` at `pos`. */
    ghost predicate Collided(q: nat, now: int, olds: seq<MissileState>, es: seq<Missile>,
                             pos: seq<Point>, score0: int)
      reads this, missiles, enemyMissiles, cities
    {
      var collided := Valid() && q <= |olds| == |missiles| && |es| == |pos|
        && var r := Intercepted(olds[..q], es, pos);
           enemyMissiles == r.enemies && Positions(enemyMissiles) == r.positions
           && score == score0 + Count(r.hits)
           && forall t :: 0 <= t < |missiles| ==>
                missiles[t].State() == if t < q && r.hits[t] then Exploded(olds[t], now) else olds[t];
      collided
    }

    /** The outer `forEach` at index `q`. */
    method Collide(q: nat, now: int, ghost olds: seq<MissileState>, ghost es: seq<Missile>,
                   ghost pos: seq<Point>, ghost score0: int)
      requires Collided(q, now, olds, es, pos, score0) && q < |olds|
      modifies this`enemyMissiles, this`score, this`enemySpeed, missiles
      ensures Collided(q + 1, now, olds, es, pos, score0) && gameOver == old(gameOver)
    {
      ghost var r := Intercepted(olds[..q], es, pos);
      InterceptedStep(olds, q, es, pos);
      Intercept(q, now, olds[q], r.positions);
    }

    /** One friendly missile, at index `q`, against the enemy list (the
        inner `forEach`, whose index goes on after a `splice` but whose
        body does nothing once the missile has exploded). */
    method Intercept(q: nat, now: int, ghost s0: MissileState, ghost pos: seq<Point>)
      requires Valid() && q < |missiles|
      requires s0 == missiles[q].State() && pos == Positions(enemyMissiles)
      modifies this`enemyMissiles, this`score, this`enemySpeed, missiles[q]
      ensures Valid()
      ensures var k := Aim(s0, pos);
              if k < |pos| then
                enemyMissiles == Delete(old(enemyMissiles), k)
                && Positions(enemyMissiles) == Delete(pos, k)
                && score == old(score) + 1
                && missiles[q].State() == Exploded(s0, now)
              else
                enemyMissiles == old(enemyMissiles) && Positions(enemyMissiles) == pos
                && score == old(score) && missiles[q].State() == s0
      ensures forall t :: 0 <= t < |missiles| && t != q ==> missiles[t].State() == old(missiles[t].State())
    {
      ghost var es, score0, others := enemyMissiles, score, States(missiles);
      ghost var k := Aim(s0, pos);
      var n := |enemyMissiles|;
      for j := 0 to n
        invariant Aimed(q, j, now, k, s0, es, pos, score0, others)
      {
        Round(q, j, now, k, s0, es, pos, score0, others);
      }
    }

    /** Where the inner `forEach` of `checkCollisions` stands for the
        friendly missile at index `q`, which was in state `s0` against
        enemies `es` at `pos`, once it has been through the indices below
        `j`: before index `k`, the enemy it aims at, nothing has changed;
        after it, that enemy is out of the list, the missile has exploded
        and the point is scored. Other friendly missiles are left alone. */
    ghost predicate Aimed(q: nat, j: nat, now: int, k: nat, s0: MissileState, es: seq<Missile>,
                          pos: seq<Point>, score0: int, others: seq<MissileState>)
      reads this, missiles, enemyMissiles, cities
    {
      Valid() && q < |missiles| == |others| && |es| == |pos| && k == Aim(s0, pos)
      && (j <= k ==>
            enemyMissiles == es && Positions(enemyMissiles) == pos
            && score == score0 && missiles[q].State() == s0)
      && (j > k ==>
            k < |es| && enemyMissiles == Delete(es, k) && Positions(enemyMissiles) == Delete(pos, k)
            && score == score0 + 1 && missiles[q].State() == Exploded(s0, now))
      && (forall t :: 0 <= t < |missiles| && t != q ==> missiles[t].State() == others[t])
    }

    /** The inner `forEach` at index `j`: when there is an enemy missile at
        that index and the friendly missile is still flying, the hit test. */
    method Round(q: nat, j: nat, now: int, ghost k: nat, ghost s0: MissileState, ghost es: seq<Missile>,
                 ghost pos: seq<Point>, ghost score0: int, ghost others: seq<MissileState>)
      requires Aimed(q, j, now, k, s0, es, pos, score0, others) && j < |es|
      modifies this`enemyMissiles, this`score, this`enemySpeed, missiles[q]
      ensures Aimed(q, j + 1, now, k, s0, es, pos, score0, others)
    {
      var player := missiles[q];
      if j < |enemyMissiles| && !player.isExploded && !player.explosionComplete {
        var enemyMissile := enemyMissiles[j];
        if RootBelow(DistSq(Point(player.x, player.y), Point(enemyMissile.x, enemyMissile.y)), ExplosionRadius) {
          assert j == k;
          Hit(q, j, now);
        }
      }
    }

    /** The hit of the enemy missile at index `j` by the flying friendly
        missile at index `q`: the enemy leaves the list (`splice`), the
        friendly missile explodes, and the score goes up by one, with the
        enemy speed raised when it reaches a multiple of twenty. */
    method Hit(q: nat, j: nat, now: int)
      requires Valid() && q < |missiles| && j < |enemyMissiles|
      modifies this`enemyMissiles, this`score, this`enemySpeed, missiles[q]
      ensures Valid()
      ensures enemyMissiles == Delete(old(enemyMissiles), j)
              && Positions(enemyMissiles) == Delete(old(Positions(enemyMissiles)), j)
      ensures score == old(score) + 1
      ensures missiles[q].State() == Exploded(old(missiles[q].State()), now)
      ensures forall t :: 0 <= t < |missiles| && t != q ==> missiles[t].State() == old(missiles[t].State())
    {
      DropEnemy(j);
      ExplodeAt(q, now);
      ScorePoint();
    }

    /** `this.enemyMissiles.splice(enemyIndex, 1)`. */
    method DropEnemy(j: nat)
      requires Valid() && j < |enemyMissiles|
      modifies this`enemyMissiles
      ensures Valid()
      ensures enemyMissiles == Delete(old(enemyMissiles), j)
      ensures Positions(enemyMissiles) == Delete(old(Positions(enemyMissiles)), j)
    {
      DistinctDelete(enemyMissiles, j);
      enemyMissiles := Delete(enemyMissiles, j);
    }

    /** `playerMissile.explode()` for the friendly missile at index `q`; no
        other missile, friendly or enemy, changes. */
    method ExplodeAt(q: nat, now: int)
      requires Valid() && q < |missiles|
      modifies missiles[q]
      ensures Valid()
      ensures missiles[q].State() == Exploded(old(missiles[q].State()), now)
      ensures forall t :: 0 <= t < |missiles| && t != q ==> missiles[t].State() == old(missiles[t].State())
      ensures Positions(enemyMissiles) == old(Positions(enemyMissiles))
    {
      forall t | 0 <= t < |missiles| && t != q
        ensures missiles[t] != missiles[q]
      {
        DistinctAt(missiles, t, q);
      }
      assert missiles[q] !in enemyMissiles;
      missiles[q].Explode(now);
    }

    /** `this.score++`, and every twenty points `increaseEnemySpeed()`. */
    method ScorePoint()
      requires Valid()
      modifies this`score, this`enemySpeed
      ensures Valid()
      ensures score == old(score) + 1
    {
      score := score + 1;
      SpeedAfterPoint(score - 1);
      if score % SpeedUpEvery == 0 {
        IncreaseEnemySpeed();
      }
    }

    /** `checkCityCollisions()`: every enemy missile, in order, against
        every city. A city still standing whose hitbox holds the enemy
        missile strictly inside is destroyed, and the enemy missile
        explodes (again, if it already had). The lists and the friendly
        missiles are left as they were, and with no enemy missile no city
        is touched. */
    method CheckCityCollisions(now: int)
      requires Valid()
      modifies if enemyMissiles == [] then [] else cities, enemyMissiles
      ensures Valid() && unchanged(this)
      ensures var r := CityPass(old(Standing(cities)), Hitboxes(cities), old(Positions(enemyMissiles)));
              Standing(cities) == r.standing
              && States(enemyMissiles) == Blasted(old(States(enemyMissiles)), r.struck, now)
      ensures States(missiles) == old(States(missiles))
      ensures forall k :: 0 <= k < |cities| && old(cities[k].isDestroyed) ==> cities[k].isDestroyed
    {
      ghost var olds, pos := States(enemyMissiles), Positions(enemyMissiles);
      ghost var standing0 := Standing(cities);
      assert forall m :: m in missiles ==> m !in enemyMissiles;
      ghost var boxes := Hitboxes(cities);
      for e := 0 to |enemyMissiles|
        invariant Razed(e, now, olds, pos, standing0, boxes)
        invariant olds == [] ==> unchanged(cities)
      {
        Strike(e, now, olds, pos, standing0, boxes);
      }
      RazedAll(now, olds, pos, standing0, boxes);
      forall k | 0 <= k < |cities|
        ensures !standing0[k] ==> cities[k].isDestroyed
      {
        CityPassStanding(standing0, boxes, pos, k);
      }
    }

    /** Where the outer `forEach` of `checkCityCollisions` stands once the
        enemy missiles below index `e`, which were in states `olds` at
        `pos`, have been tried against the cities, which were standing as
        `standing0` said. */
    ghost predicate Razed(e: nat, now: int, olds: seq<MissileState>, pos: seq<Point>,
                          standing0: seq<bool>, boxes: seq<Hitbox>)
      reads this, missiles, enemyMissiles, cities
    {
      Valid() && e <= |olds| == |enemyMissiles| == |pos|
      && (forall t :: 0 <= t < |olds| ==> pos[t] == olds[t].pos)
      && |standing0| == |cities| && boxes == Hitboxes(cities)
      && var r := CityPass(standing0, boxes, pos[..e]);
         (forall i :: 0 <= i < |cities| ==> (!cities[i].isDestroyed <==> r.standing[i]))
         && (forall t :: 0 <= t < |enemyMissiles| ==>
               enemyMissiles[t].State() == if t < e && r.struck[t] then Exploded(olds[t], now) else olds[t])
    }

    /** Once every enemy missile has been tried. */
    lemma RazedAll(now: int, olds: seq<MissileState>, pos: seq<Point>,
                   standing0: seq<bool>, boxes: seq<Hitbox>)
      requires Razed(|olds|, now, olds, pos, standing0, boxes)
      ensures var r := CityPass(standing0, boxes, pos);
              Standing(cities) == r.standing
              && States(enemyMissiles) == Blasted(olds, r.struck, now)
    {
      assert pos[..|olds|] == pos;
    }

    /** The outer `forEach` at index `e`: the inner `forEach` over the
        cities for enemy missile `e`. */
    method Strike(e: nat, now: int, ghost olds: seq<MissileState>, ghost pos: seq<Point>,
                  ghost standing0: seq<bool>, ghost boxes: seq<Hitbox>)
      requires Razed(e, now, olds, pos, standing0, boxes) && e < |olds|
      modifies cities, enemyMissiles[e]
      ensures Razed(e + 1, now, olds, pos, standing0, boxes)
    {
      ghost var r := CityPass(standing0, boxes, pos[..e]);
      ghost var others := States(enemyMissiles);
      StrikeBegins(e, now, olds, pos, standing0, boxes);
      for k := 0 to |cities|
        invariant Struck(e, k, now, pos[e], olds[e], r.standing, boxes, others)
      {
        Raid(e, k, now, pos[e], olds[e], r.standing, boxes, others);
      }
      StrikeEnds(e, now, olds, pos, standing0, boxes, others);
    }

    /** The inner `forEach` for enemy missile `e` starts from where the
        outer one stands. */
    lemma StrikeBegins(e: nat, now: int, olds: seq<MissileState>, pos: seq<Point>,
                       standing0: seq<bool>, boxes: seq<Hitbox>)
      requires Razed(e, now, olds, pos, standing0, boxes) && e < |olds|
      ensures Struck(e, 0, now, pos[e], olds[e], CityPass(standing0, boxes, pos[..e]).standing, boxes,
                     States(enemyMissiles))
    {
    }

    /** Once the inner `forEach` for enemy missile `e` is done, the outer one
        has passed `e`; `others` are the enemy states before it. */
    lemma StrikeEnds(e: nat, now: int, olds: seq<MissileState>, pos: seq<Point>,
                     standing0: seq<bool>, boxes: seq<Hitbox>, others: seq<MissileState>)
      requires e < |olds| == |pos| == |others| && |standing0| == |boxes|
      requires forall t :: 0 <= t < |olds| ==> pos[t] == olds[t].pos
      requires var r := CityPass(standing0, boxes, pos[..e]);
               forall t :: 0 <= t < |others| ==>
                 others[t] == if t < e && r.struck[t] then Exploded(olds[t], now) else olds[t]
      requires Struck(e, |cities|, now, pos[e], olds[e], CityPass(standing0, boxes, pos[..e]).standing,
                      boxes, others)
      ensures Razed(e + 1, now, olds, pos, standing0, boxes)
    {
      CityPassStep(standing0, boxes, pos, e);
    }

    /** Where the inner `forEach` of `checkCityCollisions` stands for the
        enemy missile at index `e`, at `p` and in state `s0` when it began,
        once it has been through the cities below index `k`, which were
        standing as `standing` said: those it is inside are destroyed, and
        it has exploded if there was one. Every other enemy missile keeps
        its state. */
    ghost predicate Struck(e: nat, k: nat, now: int, p: Point, s0: MissileState, standing: seq<bool>,
                           boxes: seq<Hitbox>, others: seq<MissileState>)
      reads this, missiles, enemyMissiles, cities
    {
      Valid() && e < |enemyMissiles| == |others|
      && k <= |cities| == |standing| && boxes == Hitboxes(cities) && s0.pos == p
      && (forall i :: 0 <= i < |cities| ==>
            (!cities[i].isDestroyed <==> standing[i] && (i < k ==> !StrictlyInside(p, boxes[i]))))
      && enemyMissiles[e].State() == (if FirstStrike(standing, boxes, p) < k then Exploded(s0, now) else s0)
      && (forall t :: 0 <= t < |enemyMissiles| && t != e ==> enemyMissiles[t].State() == others[t])
    }

    /** The inner `forEach` at index `k`. */
    method Raid(e: nat, k: nat, now: int, ghost p: Point, ghost s0: MissileState, ghost standing: seq<bool>,
                ghost boxes: seq<Hitbox>, ghost others: seq<MissileState>)
      requires Struck(e, k, now, p, s0, standing, boxes, others) && k < |cities|
      modifies cities[k], enemyMissiles[e]
      ensures Struck(e, k + 1, now, p, s0, standing, boxes, others)
    {
      var enemyMissile, city := enemyMissiles[e], cities[k];
      assert enemyMissile.State().pos == p;
      if !city.isDestroyed {
        var hitbox := city.GetHitbox();
        if enemyMissile.x > hitbox.x && enemyMissile.x < hitbox.x + hitbox.width
           && enemyMissile.y > hitbox.y && enemyMissile.y < hitbox.y + hitbox.height
        {
          Demolish(e, k, now, p, s0, standing, boxes, others);
        }
      }
    }

    /** The enemy missile at index `e` is inside the hitbox of the standing
        city at index `k`: `city.destroy(); enemyMissile.explode()`. */
    method Demolish(e: nat, k: nat, now: int, ghost p: Point, ghost s0: MissileState, ghost standing: seq<bool>,
                    ghost boxes: seq<Hitbox>, ghost others: seq<MissileState>)
      requires Struck(e, k, now, p, s0, standing, boxes, others) && k < |cities|
      requires standing[k] && StrictlyInside(p, boxes[k])
      modifies cities[k], enemyMissiles[e]
      ensures Struck(e, k + 1, now, p, s0, standing, boxes, others)
    {
      assert FirstStrike(standing, boxes, p) <= k;
      assert Exploded(Exploded(s0, now), now) == Exploded(s0, now);
      DestroyCity(k);
      BlastEnemy(e, now);
    }

    /** `city.destroy()` for the city at index `k`; no other city changes. */
    method DestroyCity(k: nat)
      requires Valid() && k < |cities|
      modifies cities[k]
      ensures Valid()
      ensures cities[k].isDestroyed
      ensures forall i :: 0 <= i < |cities| && i != k ==> cities[i].isDestroyed == old(cities[i].isDestroyed)
    {
      CitiesDistinct();
      forall i | 0 <= i < |cities| && i != k
        ensures cities[i] != cities[k]
      {
        DistinctAt(cities, i, k);
      }
      cities[k].Destroy();
    }

    /** `enemyMissile.explode()` for the enemy missile at index `e`; no other
        enemy missile changes. */
    method BlastEnemy(e: nat, now: int)
      requires Valid() && e < |enemyMissiles|
      modifies enemyMissiles[e]
      ensures Valid()
      ensures enemyMissiles[e].State() == Exploded(old(enemyMissiles[e].State()), now)
      ensures forall t :: 0 <= t < |enemyMissiles| && t != e ==> enemyMissiles[t].State() == old(enemyMissiles[t].State())
    {
      forall t | 0 <= t < |enemyMissiles| && t != e
        ensures enemyMissiles[t] != enemyMissiles[e]
      {
        DistinctAt(enemyMissiles, t, e);
      }
      enemyMissiles[e].Explode(now);
    }

    /** `checkGameLost()`: whether it schedules the game-over screen. */
    method CheckGameLost() returns (scheduleGameOver: bool)
      ensures scheduleGameOver <==> AllCitiesDestroyed()
      ensures Valid() == old(Valid()) && View() == old(View())
    {
      scheduleGameOver := true;
      for k := 0 to |cities|
        invariant scheduleGameOver <==> forall j :: 0 <= j < k ==> cities[j].isDestroyed
      {
        scheduleGameOver := scheduleGameOver && cities[k].isDestroyed;
      }
    }

    /** `gameLoop()`: once the game is over a call changes nothing at
        all; otherwise it runs one frame (`Frame`), whose game is
        `AfterFrame` of the game as it was, and then `checkGameLost()`,
        which schedules the game-over screen exactly when every city is
        destroyed. Without enemy missiles the cities are left alone. Drawing
        and the request for the next frame are left out. */
    method Tick(now: int, move: Move) returns (scheduleGameOver: bool)
      requires Valid()
      modifies this`missiles, this`enemyMissiles, this`score, this`enemySpeed
      modifies missiles, enemyMissiles, base, cities
      ensures Valid() && gameOver == old(gameOver)
      ensures old(gameOver) ==>
                !scheduleGameOver && unchanged(this, base) && unchanged(missiles)
                && unchanged(enemyMissiles) && unchanged(cities)
      ensures !old(gameOver) ==>
                View() == AfterFrame(old(View()), Hitboxes(cities), move, now)
                && missiles == Survivors(old(missiles), CompleteFlags(old(States(missiles))), |old(missiles)|)
                && (scheduleGameOver <==> AllCitiesDestroyed())
      ensures old(enemyMissiles) == [] ==> unchanged(cities)
      ensures forall m: Missile :: old(allocated(m)) && old(m.isExploded) ==>
                m.isExploded && m.x == old(m.x) && m.y == old(m.y)
    {
      if gameOver {
        return false;
      }
      Frame(now, move);
      scheduleGameOver := CheckGameLost();
    }

    /** The updates of `gameLoop()` while the game runs: the missiles move
        (`Movement`), then friendly explosions take out enemy missiles and
        enemy missiles take out cities (`Hits`). The new game is `AfterFrame` of the old one (and
        `FrameBounds`, `FrameScore` and `QuietFrame` say what that means);
        without enemy missiles the cities are not even in its frame, and a
        missile that had exploded stays exploded where it was. */
    method Frame(now: int, move: Move)
      requires Valid()
      modifies this`missiles, this`enemyMissiles, this`score, this`enemySpeed
      modifies missiles, enemyMissiles, base, if enemyMissiles == [] then [] else cities
      ensures Valid() && gameOver == old(gameOver)
      ensures View() == AfterFrame(old(View()), Hitboxes(cities), move, now)
      ensures missiles == Survivors(old(missiles), CompleteFlags(old(States(missiles))), |old(missiles)|)
      ensures forall i :: 0 <= i < |enemyMissiles| ==> enemyMissiles[i] in old(enemyMissiles)
      ensures forall m: Missile :: old(allocated(m)) && old(m.isExploded) ==>
                m.isExploded && m.x == old(m.x) && m.y == old(m.y)
    {
      Movement(now, move);
      Hits(now);
    }

    /** The collision half of `Frame`: friendly explosions take out enemy
        missiles (`Interception`), then the enemy missiles left take out
        cities (`Bombardment`). */
    method Hits(now: int)
      requires Valid()
      modifies this`enemyMissiles, this`score, this`enemySpeed
      modifies missiles, enemyMissiles, if enemyMissiles == [] then [] else cities
      ensures Valid() && unchanged(this`missiles, this`gameOver)
      ensures View() == RazedScene(InterceptedScene(old(View()), now), Hitboxes(cities), now)
      ensures forall i :: 0 <= i < |enemyMissiles| ==> enemyMissiles[i] in old(enemyMissiles)
      ensures forall m: Missile :: old(allocated(m)) && old(m.isExploded) ==>
                m.isExploded && m.x == old(m.x) && m.y == old(m.y)
    {
      ghost var s0 := View();
      Interception(now);
      if s0.enemy == [] {
        InterceptedNothing<MissileState>(s0.friendly);
      }
      Bombardment(now);
    }

    /** The game as a `Scene`. */
    function View(): Scene
      reads this, missiles, enemyMissiles, cities, base
    {
      Scene(States(missiles), States(enemyMissiles), Standing(cities), score, base.isReloaded,
            lastPlayerMissileTime)
    }

    /** Every missile of a valid game is in a valid lifecycle state. */
    lemma ViewValid()
      requires Valid()
      ensures View().Valid()
    {
      forall j | 0 <= j < |missiles|
        ensures missiles[j].Valid()
      {
        assert missiles[j] in missiles;
      }
      forall j | 0 <= j < |enemyMissiles|
        ensures enemyMissiles[j].Valid()
      {
        assert enemyMissiles[j] in enemyMissiles;
      }
    }

    /** The first part of the frame, `updateMissiles()`: the game becomes
        `MovedScene` of what it was, each list holds its survivors, and
        the score, the speed, the game-over flag and the cities are
        untouched. */
    method Movement(now: int, move: Move)
      requires Valid()
      modifies this`missiles, this`enemyMissiles, missiles, enemyMissiles, base
      ensures Valid() && unchanged(this`score, this`enemySpeed, this`gameOver) && unchanged(cities)
      ensures View() == MovedScene(old(View()), move, now)
      ensures missiles == Survivors(old(missiles), CompleteFlags(old(States(missiles))), |old(missiles)|)
      ensures enemyMissiles
              == Survivors(old(enemyMissiles), CompleteFlags(old(States(enemyMissiles))), |old(enemyMissiles)|)
      ensures forall i :: 0 <= i < |missiles| ==> missiles[i] in old(missiles)
      ensures forall i :: 0 <= i < |enemyMissiles| ==> enemyMissiles[i] in old(enemyMissiles)
      ensures old(enemyMissiles) == [] ==> enemyMissiles == []
      ensures forall m: Missile :: old(allocated(m)) && old(m.isExploded) ==>
                m.isExploded && m.x == old(m.x) && m.y == old(m.y)
    {
      ghost var friendly, enemy := missiles, enemyMissiles;
      ghost var friendlyStates, enemyStates := States(friendly), States(enemy);
      UpdateMissiles(now, move);
      PassedOverWithin(friendly, friendlyStates, missiles, States(friendly), move, now);
      PassedOverWithin(enemy, enemyStates, enemyMissiles, States(enemy), move, now);
      StatesOfSurvivors(friendly, CompleteFlags(friendlyStates), |friendly|);
      StatesOfSurvivors(enemy, CompleteFlags(enemyStates), |enemy|);
    }

    /** The second part of the frame, `checkCollisions()`: the game becomes
        `InterceptedScene` of what it was; the friendly list, the cities
        and the base are untouched, the enemy missiles left are some of
        those there were, and no missile moves. */
    method Interception(now: int)
      requires Valid()
      modifies this`enemyMissiles, this`score, this`enemySpeed, missiles
      ensures Valid() && unchanged(this`missiles, this`gameOver)
      ensures View() == InterceptedScene(old(View()), now)
      ensures forall i :: 0 <= i < |enemyMissiles| ==> enemyMissiles[i] in old(enemyMissiles)
      ensures forall m: Missile :: old(allocated(m)) && old(m.isExploded) ==>
                m.isExploded && m.x == old(m.x) && m.y == old(m.y)
    {
      ghost var s0, friendly := View(), missiles;
      Collisions(now);
      BlastedStayPut(friendly, s0.friendly, Intercepted(s0.friendly, s0.enemy, PositionsOf(s0.enemy)).hits, now);
      forall m: Missile | old(allocated(m)) && old(m.isExploded)
        ensures m.isExploded && m.x == old(m.x) && m.y == old(m.y)
      {
        if m in friendly {
          var q :| 0 <= q < |friendly| && friendly[q] == m;
          assert s0.friendly[q] == old(m.State());
        }
      }
    }

    /** `checkCollisions()` seen on the game as a scene: it becomes
        `InterceptedScene` of what it was. */
    method Collisions(now: int)
      requires Valid()
      modifies this`enemyMissiles, this`score, this`enemySpeed, missiles
      ensures Valid() && unchanged(this`missiles, this`gameOver)
      ensures View() == InterceptedScene(old(View()), now)
      ensures forall i :: 0 <= i < |enemyMissiles| ==> enemyMissiles[i] in old(enemyMissiles)
    {
      ghost var s0, es, friendly := View(), enemyMissiles, missiles;
      assert Positions(es) == PositionsOf(s0.enemy);
      forall i | 0 <= i < |es|
        ensures es[i] !in friendly
      {
        assert es[i] in es;
      }
      CheckCollisions(now);
      assert States(es) == s0.enemy;
      InterceptionView(s0, es, now);
    }

    /** The game after `checkCollisions()` seen as a scene, from the scene
        `s0` before it and the enemy list `es` of `s0`, whose states are
        still those of `s0`. */
    lemma InterceptionView(s0: Scene, es: seq<Missile>, now: int)
      requires States(es) == s0.enemy
      requires var r := Intercepted(s0.friendly, es, PositionsOf(s0.enemy));
               enemyMissiles == r.enemies && score == s0.score + Count(r.hits)
               && States(missiles) == Blasted(s0.friendly, r.hits, now)
      requires Standing(cities) == s0.standing && base.isReloaded == s0.reloaded
      requires lastPlayerMissileTime == s0.lastLaunch
      ensures View() == InterceptedScene(s0, now)
    {
      InterceptedStates(s0.friendly, es, PositionsOf(s0.enemy));
    }

    /** The third part of the frame, `checkCityCollisions()`: the game
        becomes `RazedScene` of what it was; the lists, the score and the
        friendly missiles are untouched, and so are the cities when there
        is no enemy missile. */
    method Bombardment(now: int)
      requires Valid()
      modifies if enemyMissiles == [] then [] else cities, enemyMissiles
      ensures Valid() && unchanged(this)
      ensures View() == RazedScene(old(View()), Hitboxes(cities), now)
      ensures forall m: Missile :: old(allocated(m)) && old(m.isExploded) ==>
                m.isExploded && m.x == old(m.x) && m.y == old(m.y)
    {
      ghost var es, olds := enemyMissiles, States(enemyMissiles);
      assert Positions(es) == PositionsOf(olds);
      ghost var struck := CityPass(Standing(cities), Hitboxes(cities), PositionsOf(olds)).struck;
      CheckCityCollisions(now);
      BlastedStayPut(es, olds, struck, now);
      forall m: Missile | old(allocated(m)) && old(m.isExploded)
        ensures m.isExploded && m.x == old(m.x) && m.y == old(m.y)
      {
        if m in es {
          var e :| 0 <= e < |es| && es[e] == m;
          assert olds[e] == old(m.State());
        }
      }
    }

    /** The callback `checkGameLost` schedules: the game is over. */
    method GameOverTimeout()
      modifies this`gameOver
      ensures gameOver
    {
      gameOver := true;
    }

    /** `resetGame()`: the start state is restored (`Restore`) and the
        loop restarted with one call of `gameLoop()`. That first frame has
        no enemy missile to move or to collide with, so the game it leaves
        has score 0, the initial enemy speed, no enemy missile, every city
        standing with its intact sprite, and no game-over screen scheduled;
        the friendly missiles, which the reset keeps, have made their
        update pass, and the base shows reloaded once the cooldown has
        elapsed. */
    method ResetGame(now: int, move: Move) returns (scheduleGameOver: bool)
      requires Valid()
      modifies this`gameOver, this`missiles, this`enemyMissiles, this`score, this`enemySpeed
      modifies missiles, base, cities
      ensures Valid() && !gameOver && !scheduleGameOver
      ensures score == 0 && enemySpeed == InitialEnemySpeed && enemyMissiles == []
      ensures forall k :: 0 <= k < |cities| ==> !cities[k].isDestroyed && cities[k].sprite == CitySprite
      ensures missiles == Survivors(old(missiles), CompleteFlags(old(States(missiles))), |old(missiles)|)
      ensures States(missiles) == Moved(old(States(missiles)), move, now)
      ensures base.isReloaded == (CooldownElapsed(now, old(lastPlayerMissileTime)) || old(base.isReloaded))
      ensures lastPlayerMissileTime == old(lastPlayerMissileTime)
    {
      Restore();
      scheduleGameOver := QuietTick(now, move);
      assert !cities[0].isDestroyed;
    }

    /** `gameLoop()` on a running game without enemy missiles, as
        `resetGame()` calls it: nothing is there to collide, so the score,
        the enemy speed and the cities stay as they are and no enemy missile
        appears; the friendly missiles make their update pass, and the base
        shows reloaded once the cooldown has elapsed. */
    method QuietTick(now: int, move: Move) returns (scheduleGameOver: bool)
      requires Valid() && !gameOver && enemyMissiles == []
      modifies this`missiles, this`enemyMissiles, this`score, this`enemySpeed
      modifies missiles, base, cities
      ensures Valid() && !gameOver && unchanged(cities) && enemyMissiles == []
      ensures score == old(score) && enemySpeed == old(enemySpeed)
      ensures missiles == Survivors(old(missiles), CompleteFlags(old(States(missiles))), |old(missiles)|)
      ensures States(missiles) == Moved(old(States(missiles)), move, now)
      ensures base.isReloaded == (CooldownElapsed(now, old(lastPlayerMissileTime)) || old(base.isReloaded))
      ensures lastPlayerMissileTime == old(lastPlayerMissileTime)
      ensures scheduleGameOver <==> AllCitiesDestroyed()
    {
      ghost var s0 := View();
      scheduleGameOver := Tick(now, move);
      QuietFrame(s0, Hitboxes(cities), move, now);
    }

    /** The assignments of `resetGame()` before its call of `gameLoop()`:
        score, enemy speed, enemy missiles and the game-over flag back to
        their start, and every city standing again with its intact sprite.
        The friendly missiles, the base and the launch clock are left as
        they are. */
    method Restore()
      requires Valid()
      modifies this`gameOver, this`score, this`enemySpeed, this`enemyMissiles, cities
      ensures Valid() && unchanged(this`missiles) && States(missiles) == old(States(missiles))
      ensures base.isReloaded == old(base.isReloaded) && lastPlayerMissileTime == old(lastPlayerMissileTime)
      ensures !gameOver && score == 0 && enemySpeed == InitialEnemySpeed && enemyMissiles == []
      ensures forall k :: 0 <= k < |cities| ==> !cities[k].isDestroyed && cities[k].sprite == CitySprite
    {
      gameOver := false;
      score := 0;
      enemySpeed := InitialEnemySpeed;
      enemyMissiles := [];
      for k := 0 to |cities|
        modifies cities
        invariant forall j :: 0 <= j < k ==> !cities[j].isDestroyed && cities[j].sprite == CitySprite
      {
        cities[k].isDestroyed := false;
        cities[k].sprite := CitySprite;
      }
    }
  }
}
