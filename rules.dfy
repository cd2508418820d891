/** The decisions `MissileCommandGame` takes each frame, as pure functions:
    the launch cooldown, the enemy speed schedule, which missiles a
    `forEach` reaches while missiles remove themselves, and which enemy
    missile a friendly missile or a city is hit by first. */
module Rules {
  import opened Geometry
  import opened Sequences
  import opened Missiles

  /** `playerMissileCooldown`, in milliseconds. */
  const PlayerMissileCooldown := 1000

  /** A launch (and the base's reload) is allowed once the cooldown has
      elapsed since the last launch. */
  predicate CooldownElapsed(now: int, lastLaunch: int)
  {
    now - lastLaunch >= PlayerMissileCooldown
  }

  /** Once the cooldown has elapsed it stays elapsed until the next launch,
      and it has not elapsed at the launch itself. */
  lemma CooldownStaysElapsed(now: int, later: int, lastLaunch: int)
    requires now <= later
    ensures CooldownElapsed(now, lastLaunch) ==> CooldownElapsed(later, lastLaunch)
    ensures !CooldownElapsed(lastLaunch, lastLaunch)
  {
  }

  /* Enemy speed, kept in tenths so that `+= 0.2` is exact: the game starts
     at 1 (10 tenths), `increaseEnemySpeed` adds 0.2 (2 tenths) while the
     speed is below 3 (30 tenths), and is called whenever the score reaches
     a multiple of 20. */
  const InitialEnemySpeed := 10
  const EnemySpeedStep := 2
  const EnemySpeedLimit := 30
  const SpeedUpEvery := 20

  /** `increaseEnemySpeed()`: never slows down, never passes the cap by
      more than one step, and keeps a speed on the schedule's grid. */
  function RaisedSpeed(tenths: int): (r: int)
    ensures r >= tenths
    ensures r < EnemySpeedLimit + EnemySpeedStep || r == tenths
    ensures tenths < EnemySpeedLimit <==> r > tenths
  {
    if tenths < EnemySpeedLimit then tenths + EnemySpeedStep else tenths
  }

  /** The enemy speed the game runs at with score `score`: one step per
      twenty points, capped at 3. */
  function SpeedForScore(score: nat): (t: int)
    ensures InitialEnemySpeed <= t <= EnemySpeedLimit
  {
    var raised := InitialEnemySpeed + EnemySpeedStep * (score / SpeedUpEvery);
    if raised < EnemySpeedLimit then raised else EnemySpeedLimit
  }

  /** One point scored: the speed is raised exactly when the new score is a
      multiple of twenty, and then by `increaseEnemySpeed`'s rule, so the
      speed always equals `SpeedForScore` of the score. */
  lemma SpeedAfterPoint(score: nat)
    ensures SpeedForScore(score + 1)
            == if (score + 1) % SpeedUpEvery == 0 then RaisedSpeed(SpeedForScore(score))
               else SpeedForScore(score)
  {
    if (score + 1) % SpeedUpEvery == 0 {
      assert (score + 1) / SpeedUpEvery == score / SpeedUpEvery + 1;
    } else {
      assert (score + 1) / SpeedUpEvery == score / SpeedUpEvery;
    }
  }

  /** The speed never goes down as the score grows. */
  lemma {:induction false} SpeedMonotone(a: nat, b: nat)
    requires a <= b
    ensures SpeedForScore(a) <= SpeedForScore(b)
    decreases b - a
  {
    if a < b {
      SpeedAfterPoint(a);
      SpeedMonotone(a + 1, b);
    }
  }

  /* A `forEach` over a list whose callback may remove the element it is
     visiting (the missile lists, through `destroy()`): the loop runs over
     the indices of the list as it was, so after a removal the next element
     slides into the index just done and is not visited this time. `gone[j]`
     says whether element j removes itself when visited. */

  /** Whether element `j` is visited: the first is, and every later one is
      unless the one before it was visited and removed itself. */
  function Visited(gone: seq<bool>, j: nat): (v: bool)
    requires j < |gone|
    ensures j > 0 && !gone[j - 1] ==> v
    ensures !v ==> j > 0 && Visited(gone, j - 1)
  {
    j == 0 || !(Visited(gone, j - 1) && gone[j - 1])
  }

  /** The elements among the first `p` still in the list after the loop:
      all but those visited and removed. */
  function Survivors<T>(s: seq<T>, gone: seq<bool>, p: nat): (r: seq<T>)
    requires |s| == |gone| && p <= |s|
    ensures |r| <= p
  {
    if p == 0 then []
    else
      var prev := Survivors(s, gone, p - 1);
      if Visited(gone, p - 1) && gone[p - 1] then prev else prev + [s[p - 1]]
  }

  /** The survivors come from the elements passed over. */
  lemma {:induction false} SurvivorsWithin<T>(s: seq<T>, gone: seq<bool>, p: nat)
    requires |s| == |gone| && p <= |s|
    ensures forall x :: x in Survivors(s, gone, p) ==> x in s[..p]
    decreases p
  {
    if p > 0 {
      SurvivorsWithin(s, gone, p - 1);
      assert s[..p] == s[..p - 1] + [s[p - 1]];
    }
  }

  /** The survivors keep their order. */
  lemma {:induction false} SurvivorsSubsequence<T>(s: seq<T>, gone: seq<bool>, p: nat)
    requires |s| == |gone| && p <= |s|
    ensures Subsequence(Survivors(s, gone, p), s[..p])
    decreases p
  {
    if p > 0 {
      SurvivorsSubsequence(s, gone, p - 1);
      assert s[..p][..p - 1] == s[..p - 1];
    }
  }

  /** One more element of the pass: an element visited and removed takes
      the next one's visit with it; any other adds itself to the
      survivors. */
  lemma SurvivorsAdvance<T>(s: seq<T>, gone: seq<bool>, p: nat)
    requires |s| == |gone| && p < |s| && Visited(gone, p)
    ensures gone[p] ==> Survivors(s, gone, p + 1) == Survivors(s, gone, p)
    ensures gone[p] && p + 1 < |s| ==>
              Survivors(s, gone, p + 2) == Survivors(s, gone, p) + [s[p + 1]]
              && !Visited(gone, p + 1)
    ensures gone[p] && p + 2 < |s| ==> Visited(gone, p + 2)
    ensures !gone[p] ==> Survivors(s, gone, p + 1) == Survivors(s, gone, p) + [s[p]]
    ensures !gone[p] && p + 1 < |s| ==> Visited(gone, p + 1)
  {
  }

  /** The element the pass visits after element `p`: the one after it, or
      the one after that when `p` removed itself; `|gone|` when the pass
      ends first. */
  function NextVisited(gone: seq<bool>, p: nat): (q: nat)
    requires p < |gone|
    ensures p < q <= |gone| && q <= p + 2
    ensures Visited(gone, p) && q < |gone| ==>
              Visited(gone, q) && forall j :: p < j < q ==> !Visited(gone, j)
    ensures Visited(gone, p) && q == |gone| ==> forall j :: p < j < |gone| ==> !Visited(gone, j)
  {
    if gone[p] && p + 1 < |gone| then p + 2 else p + 1
  }

  /** One visit of the pass over a list that holds the survivors so far
      followed by the elements still to visit: visiting element `p` (and
      removing it, when it removes itself) leaves the survivors up to the
      next element visited followed by the rest, and that element is at the
      next index of the list. */
  lemma {:induction false} PassStep<T>(s: seq<T>, gone: seq<bool>, p: nat)
    requires |s| == |gone| && p < |s| && Visited(gone, p)
    ensures var before := Survivors(s, gone, p) + s[p..];
            var i := |Survivors(s, gone, p)|;
            var after := if gone[p] then Delete(before, i) else before;
            var q := NextVisited(gone, p);
            after == Survivors(s, gone, q) + s[q..]
            && (q < |s| ==> i + 1 == |Survivors(s, gone, q)| && Visited(gone, q))
            && (q == |s| ==> i + 1 >= |after|)
  {
    var surv := Survivors(s, gone, p);
    SpliceJoin(surv, s[p..]);
    assert s[p..][1..] == s[p + 1..];
    SurvivorsAdvance(s, gone, p);
    if gone[p] && p + 1 < |s| {
      SpliceJoin(surv, s[p + 1..]);
      assert s[p + 1..][1..] == s[p + 2..];
    }
  }

  /** In a list without duplicates, an element survives exactly when it was
      not visited and removed. */
  lemma {:induction false} SurvivorsMembers<T>(s: seq<T>, gone: seq<bool>, p: nat, j: nat)
    requires |s| == |gone| && j < p <= |s| && Distinct(s)
    ensures s[j] in Survivors(s, gone, p) <==> !(Visited(gone, j) && gone[j])
    decreases p
  {
    if j < p - 1 {
      SurvivorsMembers(s, gone, p - 1, j);
      DistinctAt(s, p - 1, j);
    } else {
      var prev := Survivors(s, gone, p - 1);
      SurvivorsWithin(s, gone, p - 1);
      DistinctNotBefore(s, j);
      assert s[j] !in prev;
    }
  }

  /** Without removals the `forEach` visits every element. */
  lemma {:induction false} AllVisitedWithoutRemovals(gone: seq<bool>, j: nat)
    requires j < |gone|
    requires forall k :: 0 <= k < |gone| ==> !gone[k]
    ensures Visited(gone, j)
    decreases j
  {
    if j > 0 {
      AllVisitedWithoutRemovals(gone, j - 1);
    }
  }

  /** A missile that is not visited sits right after one that was visited
      and removed itself, and the missile after it is visited again. */
  lemma SkippedOnlyAfterRemoval(gone: seq<bool>, j: nat)
    requires j < |gone| && !Visited(gone, j)
    ensures 0 < j && Visited(gone, j - 1) && gone[j - 1]
    ensures j + 1 < |gone| ==> Visited(gone, j + 1)
  {
  }

  /** The position in `es` of the first enemy missile that a friendly
      missile at `p` is closer to than its explosion radius, or `|es|` when
      there is none (the inner `forEach` of `checkCollisions`). */
  function FirstHit(p: Point, es: seq<Point>): (k: nat)
    ensures k <= |es|
    ensures k < |es| ==> RootBelow(DistSq(p, es[k]), ExplosionRadius)
    ensures forall j :: 0 <= j < k ==> !RootBelow(DistSq(p, es[j]), ExplosionRadius)
  {
    if es == [] then 0
    else if RootBelow(DistSq(p, es[0]), ExplosionRadius) then 0
    else 1 + FirstHit(p, es[1..])
  }

  /** The position in `es` of the first enemy missile strictly inside the
      hitbox `h`, or `|es|` when there is none (`checkCityCollisions`). */
  function FirstInside(h: Hitbox, es: seq<Point>): (k: nat)
    ensures k <= |es|
    ensures k < |es| ==> StrictlyInside(es[k], h)
    ensures forall j :: 0 <= j < k ==> !StrictlyInside(es[j], h)
  {
    if es == [] then 0
    else if StrictlyInside(es[0], h) then 0
    else 1 + FirstInside(h, es[1..])
  }

  /** Whether enemy missile `j` strikes a city in a `checkCityCollisions`
      pass: it is the first enemy missile inside the hitbox of a city that
      was standing when the pass began. */
  predicate StrikesCity(standing: seq<bool>, boxes: seq<Hitbox>, es: seq<Point>, j: nat)
    requires |standing| == |boxes|
  {
    exists k :: 0 <= k < |boxes| && standing[k] && FirstInside(boxes[k], es) == j
  }

  /** Number of `true` flags. */
  function Count(bs: seq<bool>): (n: nat)
    ensures n <= |bs|
  {
    if bs == [] then 0 else Count(bs[..|bs| - 1]) + (if bs[|bs| - 1] then 1 else 0)
  }

  /** The enemy missile a friendly missile in state `s` hits among enemies
      at `pos` (the inner `forEach` of `checkCollisions`): the first one
      closer than the explosion radius when `s` is still flying, `|pos|`
      (none) otherwise. */
  function Aim(s: MissileState, pos: seq<Point>): (k: nat)
    ensures k <= |pos|
    ensures k < |pos| <==> s.Live() && exists j :: 0 <= j < |pos| && RootBelow(DistSq(s.pos, pos[j]), ExplosionRadius)
    ensures k < |pos| ==> RootBelow(DistSq(s.pos, pos[k]), ExplosionRadius)
    ensures s.Live() ==> forall j :: 0 <= j < k && j < |pos| ==> !RootBelow(DistSq(s.pos, pos[j]), ExplosionRadius)
  {
    if s.Live() then FirstHit(s.pos, pos) else |pos|
  }

  /** What `checkCollisions` leaves: the enemy missiles not hit, with their
      positions, and for each friendly missile whether it hit one. */
  datatype Interception<T> = Interception(enemies: seq<T>, positions: seq<Point>, hits: seq<bool>)

  /** The friendly missiles in states `ps`, in order, each take out the
      enemy it aims at among those still in the list (`splice`). */
  function Intercepted<T>(ps: seq<MissileState>, es: seq<T>, pos: seq<Point>): (r: Interception<T>)
    requires |es| == |pos|
    ensures |r.enemies| == |r.positions| && |r.hits| == |ps|
    ensures forall q :: 0 <= q < |ps| && r.hits[q] ==> ps[q].Live()
    decreases |ps|
  {
    if ps == [] then Interception(es, pos, [])
    else
      var r := Intercepted(ps[..|ps| - 1], es, pos);
      var k := Aim(ps[|ps| - 1], r.positions);
      if k < |r.positions| then
        Interception(Delete(r.enemies, k), Delete(r.positions, k), r.hits + [true])
      else
        Interception(r.enemies, r.positions, r.hits + [false])
  }

  /** Trying one more friendly missile, `ps[q]`, against the enemies the
      ones before it left. */
  lemma InterceptedStep<T>(ps: seq<MissileState>, q: nat, es: seq<T>, pos: seq<Point>)
    requires |es| == |pos| && q < |ps|
    ensures var r := Intercepted(ps[..q], es, pos);
            var r' := Intercepted(ps[..q + 1], es, pos);
            var k := Aim(ps[q], r.positions);
            r' == (if k < |r.positions| then Interception(Delete(r.enemies, k), Delete(r.positions, k), r.hits + [true])
                   else Interception(r.enemies, r.positions, r.hits + [false]))
            && Count(r'.hits) == Count(r.hits) + (if k < |r.positions| then 1 else 0)
  {
    assert ps[..q + 1][..q] == ps[..q];
    var r := Intercepted(ps[..q], es, pos);
    var k := Aim(ps[q], r.positions);
    var b := k < |r.positions|;
    assert (r.hits + [b])[..|r.hits|] == r.hits;
  }

  /** Each hit takes exactly one enemy missile out of the list. */
  lemma {:induction false} OneEnemyPerHit<T>(ps: seq<MissileState>, es: seq<T>, pos: seq<Point>)
    requires |es| == |pos|
    ensures |Intercepted(ps, es, pos).enemies| + Count(Intercepted(ps, es, pos).hits) == |es|
    decreases |ps|
  {
    if ps != [] {
      OneEnemyPerHit(ps[..|ps| - 1], es, pos);
      var r := Intercepted(ps[..|ps| - 1], es, pos);
      assert (r.hits + [true])[..|r.hits|] == r.hits;
      assert (r.hits + [false])[..|r.hits|] == r.hits;
    }
  }

  /** The enemy missiles left are the ones there were, in their order,
      each with its own position. */
  lemma {:induction false} InterceptedKeepsOrder<T>(ps: seq<MissileState>, es: seq<T>, pos: seq<Point>)
    requires |es| == |pos|
    ensures Subsequence(Intercepted(ps, es, pos).enemies, es)
    ensures Subsequence(Intercepted(ps, es, pos).positions, pos)
    decreases |ps|
  {
    if ps == [] {
      SubsequenceRefl(es);
      SubsequenceRefl(pos);
    } else {
      InterceptedKeepsOrder(ps[..|ps| - 1], es, pos);
      var r := Intercepted(ps[..|ps| - 1], es, pos);
      var k := Aim(ps[|ps| - 1], r.positions);
      if k < |r.positions| {
        DeleteIsSubsequence(r.enemies, k);
        SubsequenceTrans(Delete(r.enemies, k), r.enemies, es);
        DeleteIsSubsequence(r.positions, k);
        SubsequenceTrans(Delete(r.positions, k), r.positions, pos);
      }
    }
  }

  /** The friendly missiles after `checkCollisions`: those that hit have
      exploded at `now`, the others are as they were. */
  function Blasted(ps: seq<MissileState>, hits: seq<bool>, now: int): (r: seq<MissileState>)
    requires |hits| == |ps|
    ensures |r| == |ps|
    ensures forall q :: 0 <= q < |ps| ==> r[q] == if hits[q] then Exploded(ps[q], now) else ps[q]
  {
    seq(|ps|, q requires 0 <= q < |ps| => if hits[q] then Exploded(ps[q], now) else ps[q])
  }

  /** The score a `checkCollisions` pass adds is the number of friendly
      missiles it made explode. */
  lemma {:induction false} ScoreCountsExplosions(ps: seq<MissileState>, hits: seq<bool>, now: int)
    requires |hits| == |ps|
    requires forall q :: 0 <= q < |ps| && hits[q] ==> ps[q].Live()
    ensures NewlyExploded(ps, Blasted(ps, hits, now)) == Count(hits)
    decreases |ps|
  {
    if ps != [] {
      var n := |ps| - 1;
      var after := Blasted(ps, hits, now);
      assert after[..n] == Blasted(ps[..n], hits[..n], now);
      ScoreCountsExplosions(ps[..n], hits[..n], now);
    }
  }

  /** The first enemy inside a hitbox among the first `n` is the first
      inside it among all of them, if it comes before `n`. */
  lemma FirstInsidePrefix(h: Hitbox, es: seq<Point>, n: nat)
    requires n <= |es|
    ensures FirstInside(h, es[..n]) == if FirstInside(h, es) < n then FirstInside(h, es) else n
  {
    var k, k' := FirstInside(h, es), FirstInside(h, es[..n]);
    if k < n {
      assert es[..n][k] == es[k];
    }
    if k' < n {
      assert es[..n][k'] == es[k'];
    }
  }

  /** One enemy missile at `p` against the cities (the inner `forEach` of
      `checkCityCollisions`): it razes every standing city whose hitbox it
      is strictly inside. */
  function Raze(standing: seq<bool>, boxes: seq<Hitbox>, p: Point): (r: seq<bool>)
    requires |standing| == |boxes|
    ensures |r| == |boxes|
    ensures forall k :: 0 <= k < |boxes| ==> r[k] == (standing[k] && !StrictlyInside(p, boxes[k]))
  {
    seq(|boxes|, k requires 0 <= k < |boxes| => standing[k] && !StrictlyInside(p, boxes[k]))
  }

  /** Whether an enemy missile at `p` is inside the hitbox of a standing
      city, and so explodes. */
  predicate StrikesAny(standing: seq<bool>, boxes: seq<Hitbox>, p: Point)
    requires |standing| == |boxes|
  {
    exists k :: 0 <= k < |boxes| && standing[k] && StrictlyInside(p, boxes[k])
  }

  /** The first city, in order, that an enemy missile at `p` strikes:
      standing, with `p` strictly inside its hitbox; `|boxes|` when there is
      none. */
  function FirstStrike(standing: seq<bool>, boxes: seq<Hitbox>, p: Point): (k: nat)
    requires |standing| == |boxes|
    ensures k <= |boxes|
    ensures k < |boxes| <==> StrikesAny(standing, boxes, p)
    ensures k < |boxes| ==> standing[k] && StrictlyInside(p, boxes[k])
    ensures forall i :: 0 <= i < k ==> !(standing[i] && StrictlyInside(p, boxes[i]))
    decreases |boxes|
  {
    if boxes == [] then 0
    else if standing[0] && StrictlyInside(p, boxes[0]) then 0
    else
      var k := FirstStrike(standing[1..], boxes[1..], p);
      assert StrikesAny(standing, boxes, p) ==> StrikesAny(standing[1..], boxes[1..], p) by {
        if StrikesAny(standing, boxes, p) {
          var i :| 0 <= i < |boxes| && standing[i] && StrictlyInside(p, boxes[i]);
          assert standing[1..][i - 1] && StrictlyInside(p, boxes[1..][i - 1]);
        }
      }
      1 + k
  }

  /** What `checkCityCollisions` leaves: which cities still stand and, for
      each enemy missile, whether it struck a city. */
  datatype CityStrikes = CityStrikes(standing: seq<bool>, struck: seq<bool>)

  /** The enemy missiles at `es`, in order, each against the cities left
      standing by those before it. */
  function CityPass(standing: seq<bool>, boxes: seq<Hitbox>, es: seq<Point>): (r: CityStrikes)
    requires |standing| == |boxes|
    ensures |r.standing| == |boxes| && |r.struck| == |es|
    decreases |es|
  {
    if es == [] then CityStrikes(standing, [])
    else
      var r := CityPass(standing, boxes, es[..|es| - 1]);
      var p := es[|es| - 1];
      CityStrikes(Raze(r.standing, boxes, p), r.struck + [StrikesAny(r.standing, boxes, p)])
  }

  /** One more enemy missile of the pass. */
  lemma CityPassStep(standing: seq<bool>, boxes: seq<Hitbox>, es: seq<Point>, e: nat)
    requires |standing| == |boxes| && e < |es|
    ensures var r := CityPass(standing, boxes, es[..e]);
            CityPass(standing, boxes, es[..e + 1])
            == CityStrikes(Raze(r.standing, boxes, es[e]), r.struck + [StrikesAny(r.standing, boxes, es[e])])
  {
    assert es[..e + 1][..e] == es[..e];
  }

  /** A city survives the pass exactly when it was standing and no enemy
      missile is inside its hitbox. */
  lemma {:induction false} CityPassStanding(standing: seq<bool>, boxes: seq<Hitbox>, es: seq<Point>, k: nat)
    requires |standing| == |boxes| && k < |boxes|
    ensures CityPass(standing, boxes, es).standing[k]
            <==> standing[k] && FirstInside(boxes[k], es) == |es|
    decreases |es|
  {
    if es != [] {
      var n := |es| - 1;
      CityPassStanding(standing, boxes, es[..n], k);
      FirstInsidePrefix(boxes[k], es, n);
    }
  }

  /** An enemy missile strikes exactly when it is the first one inside the
      hitbox of a city that was standing when the pass began. */
  lemma {:induction false} CityPassStruck(standing: seq<bool>, boxes: seq<Hitbox>, es: seq<Point>, j: nat)
    requires |standing| == |boxes| && j < |es|
    ensures CityPass(standing, boxes, es).struck[j] <==> StrikesCity(standing, boxes, es, j)
    decreases |es|
  {
    var n := |es| - 1;
    var r := CityPass(standing, boxes, es[..n]);
    if j < n {
      CityPassStruck(standing, boxes, es[..n], j);
      assert StrikesCity(standing, boxes, es[..n], j) <==> StrikesCity(standing, boxes, es, j) by {
        forall k | 0 <= k < |boxes|
          ensures FirstInside(boxes[k], es[..n]) == j <==> FirstInside(boxes[k], es) == j
        {
          FirstInsidePrefix(boxes[k], es, n);
        }
      }
    } else {
      forall k | 0 <= k < |boxes|
        ensures r.standing[k] && StrictlyInside(es[n], boxes[k])
                <==> standing[k] && FirstInside(boxes[k], es) == n
      {
        CityPassStanding(standing, boxes, es[..n], k);
        FirstInsidePrefix(boxes[k], es, n);
      }
    }
  }

  /** Number of missiles that were flying in `before` and are no longer in
      `after`. */
  function NewlyExploded(before: seq<MissileState>, after: seq<MissileState>): (n: nat)
    requires |before| == |after|
    ensures n <= |before|
  {
    if before == [] then 0
    else
      NewlyExploded(before[..|before| - 1], after[..|after| - 1])
      + (if before[|before| - 1].Live() && !after[|after| - 1].Live() then 1 else 0)
  }
}
