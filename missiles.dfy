/** A missile of the game (`Missile` in test.js): it flies towards its
    target, explodes, plays a twelve-frame explosion paced by the clock and
    then asks to be removed from the lists that hold it.

    The state of one missile is given as a value (`MissileState`) with one
    pure function per step of its lifecycle; the `Missile` class holds the
    same fields and updates them in place, each method proved against the
    function for its step. */
module Missiles {
  import opened Geometry

  /** `explosionFrames.length`: the explosion animation has twelve frames. */
  const ExplosionFrameCount := 12
  /** `explosionFrameDuration`, in milliseconds. */
  const ExplosionFrameDuration := 100
  /** `explosionRadius`: a friendly missile hits what is closer than this. */
  const ExplosionRadius := 50.0
  /** The ground line: an enemy missile at or below it detonates. */
  const GroundY := 800.0

  /** One heading step of `update`: where a missile at the first point,
      heading for the second at the given speed, is one frame later. */
  type Move = (Point, Point, real) -> Point

  datatype MissileState = MissileState(
    pos: Point,
    target: Point,
    speed: real,
    isEnemy: bool,
    isExploded: bool,
    frame: int,               // currentFrameIndex
    lastFrameChangeTime: int,
    explosionComplete: bool)
  {
    /** The lifecycle invariant: the frame index stays on one of the twelve
        frames, is 0 until the missile explodes, and is on the last frame
        exactly when the explosion is complete. */
    predicate Valid()
    {
      0 <= frame < ExplosionFrameCount
      && (!isExploded ==> frame == 0)
      && (explosionComplete <==> frame == ExplosionFrameCount - 1)
    }

    /** Still flying: the only missiles that `checkCollisions` lets hit. */
    predicate Live()
    {
      !isExploded && !explosionComplete
    }
  }

  /** `new Missile(x, y, targetX, targetY, speed, isEnemy)`. */
  function Launched(origin: Point, target: Point, speed: real, isEnemy: bool): (s: MissileState)
    ensures s.Valid() && s.Live()
  {
    MissileState(origin, target, speed, isEnemy, false, 0, 0, false)
  }

  /** `explode()`: marks the missile exploded and restarts the frame clock
      at `now`; the position and the animation are left alone. */
  function Exploded(s: MissileState, now: int): (r: MissileState)
    ensures s.Valid() ==> r.Valid()
    ensures r.isExploded && !r.Live()
    ensures r.pos == s.pos && r.frame == s.frame && r.explosionComplete == s.explosionComplete
    ensures r.lastFrameChangeTime == now
  {
    s.(isExploded := true, lastFrameChangeTime := now)
  }

  /** The branch of `updateExplosionAnimation` taken while the explosion is
      not complete: more than one frame duration after the last change the
      frame index moves on by exactly one (the `% 12` never wraps), and the
      explosion completes when the last frame is reached. */
  function AdvanceExplosion(s: MissileState, now: int): (r: MissileState)
    requires s.isExploded && !s.explosionComplete
    ensures r.isExploded && r.pos == s.pos
    ensures s.Valid() ==> r.Valid()
    ensures s.Valid() && now - s.lastFrameChangeTime > ExplosionFrameDuration ==>
              r.frame == s.frame + 1 && r.lastFrameChangeTime == now
    ensures now - s.lastFrameChangeTime <= ExplosionFrameDuration ==> r == s
    ensures s.Valid() ==> (r.explosionComplete <==> s.frame == ExplosionFrameCount - 2 && r.frame != s.frame)
  {
    if now - s.lastFrameChangeTime > ExplosionFrameDuration then
      var next := (s.frame + 1) % ExplosionFrameCount;
      s.(frame := next, lastFrameChangeTime := now,
         explosionComplete := s.explosionComplete || next == ExplosionFrameCount - 1)
    else
      s
  }

  /** What one call of `update` does, and whether it ended in `destroy()`. */
  datatype Outcome = Outcome(next: MissileState, destroy: bool)

  /** The detonation test of `update` for a missile that has just moved to
      `p`: an enemy missile at or below the ground line, or any missile
      that is less than one step from its target. */
  predicate Detonates(s: MissileState, p: Point)
  {
    (s.isEnemy && p.y >= GroundY) || RootBelow(DistSq(s.target, p), s.speed)
  }

  /** With `d` the distance from `p` to the target (`distanceToTarget`, the
      non-negative root of the squared distance), a missile detonates at
      `p` exactly when it is an enemy missile at or below the ground line,
      or `d` is below its speed. */
  lemma DetonatesAtDistance(s: MissileState, p: Point, d: real)
    requires d >= 0.0 && d * d == DistSq(s.target, p)
    ensures Detonates(s, p) <==> (s.isEnemy && p.y >= GroundY) || d < s.speed
  {
    RootBelowIsSqrtBelow(d, s.speed);
  }

  /** `update()`, with `moved` the position the heading step gives. A flying
      missile moves and explodes if it detonates; an exploded one stays
      where it is and animates; a completed one asks to be destroyed. */
  function Updated(s: MissileState, moved: Point, now: int): (u: Outcome)
    ensures u.next.target == s.target && u.next.speed == s.speed && u.next.isEnemy == s.isEnemy
    ensures !s.isExploded ==> u.next.pos == moved && (u.next.isExploded <==> Detonates(s, moved))
    ensures s.isExploded ==> u.next.isExploded && u.next.pos == s.pos
    ensures s.Valid() ==> u.next.Valid()
    ensures s.Valid() && !s.isExploded ==> u.next.frame == 0 && !u.next.explosionComplete
    ensures s.Valid() && s.isExploded ==> s.frame <= u.next.frame <= s.frame + 1
    ensures s.Valid() ==> (u.destroy <==> s.explosionComplete)
    ensures s.Valid() && s.explosionComplete ==> u.next == s
  {
    if !s.isExploded then
      var m := s.(pos := moved);
      if s.isEnemy && moved.y >= GroundY then Outcome(Exploded(m, now), false)
      else if RootBelow(DistSq(s.target, moved), s.speed) then Outcome(Exploded(m, now), false)
      else Outcome(m, false)
    else if !s.explosionComplete then
      Outcome(AdvanceExplosion(s, now), false)
    else
      Outcome(s, true)
  }

  /** The state after `update` has been called once per frame, each frame
      given by the position the heading step gives and the time. Once
      exploded a missile stays exploded and never moves again, and its
      frame index never goes back. */
  function Run(s: MissileState, frames: seq<(Point, int)>): (r: MissileState)
    requires s.Valid()
    ensures r.Valid()
    ensures s.isExploded ==> r.isExploded && r.pos == s.pos && r.frame >= s.frame
    ensures s.explosionComplete ==> r == s
    decreases |frames|
  {
    if frames == [] then s
    else Run(Updated(s, frames[0].0, frames[0].1).next, frames[1..])
  }

  /** Each frame time comes more than one frame duration after the one
      before it, the first after `t0`. */
  predicate Paced(t0: int, frames: seq<(Point, int)>)
  {
    (|frames| > 0 ==> frames[0].1 - t0 > ExplosionFrameDuration)
    && forall i :: 0 < i < |frames| ==> frames[i].1 - frames[i - 1].1 > ExplosionFrameDuration
  }

  /** An explosion cannot finish early: it takes at least one update per
      remaining frame. */
  lemma {:induction false} NoEarlyCompletion(s: MissileState, frames: seq<(Point, int)>)
    requires s.Valid() && !s.explosionComplete
    requires |frames| < ExplosionFrameCount - 1 - s.frame
    ensures !Run(s, frames).explosionComplete
    decreases |frames|
  {
    if frames != [] {
      var n := Updated(s, frames[0].0, frames[0].1).next;
      NoEarlyCompletion(n, frames[1..]);
    }
  }

  /** With updates spaced more than a frame duration apart, an explosion in
      progress completes after exactly one update per remaining frame; the
      next `update` then asks for removal. */
  lemma {:induction false} ExplosionCompletesOnTime(s: MissileState, frames: seq<(Point, int)>)
    requires s.Valid() && s.isExploded && !s.explosionComplete
    requires |frames| == ExplosionFrameCount - 1 - s.frame
    requires Paced(s.lastFrameChangeTime, frames)
    ensures Run(s, frames).explosionComplete
    ensures Updated(Run(s, frames), Point(0.0, 0.0), 0).destroy
    decreases |frames|
  {
    assert frames[0].1 - s.lastFrameChangeTime > ExplosionFrameDuration;
    var n := Updated(s, frames[0].0, frames[0].1).next;
    assert n.frame == s.frame + 1 && n.lastFrameChangeTime == frames[0].1;
    if |frames| > 1 {
      var rest := frames[1..];
      assert forall i :: 0 <= i < |rest| ==> rest[i] == frames[i + 1];
      assert frames[1].1 - frames[0].1 > ExplosionFrameDuration;
      ExplosionCompletesOnTime(n, rest);
    }
  }

  /** A missile (`class Missile`). `x`, `y`, the explosion flags, the frame
      index and the frame clock change in place; the rest is fixed at
      construction. */
  class Missile {
    var x: real
    var y: real
    const targetX: real
    const targetY: real
    const speed: real
    const isEnemy: bool
    var isExploded: bool
    var currentFrameIndex: int
    var lastFrameChangeTime: int
    var explosionComplete: bool

    /** The fields of this missile as a value. */
    function State(): MissileState
      reads this
    {
      MissileState(Point(x, y), Point(targetX, targetY), speed, isEnemy,
                   isExploded, currentFrameIndex, lastFrameChangeTime, explosionComplete)
    }

    ghost predicate Valid()
      reads this
    {
      State().Valid()
    }

    constructor (x: real, y: real, targetX: real, targetY: real, speed: real, isEnemy: bool)
      ensures State() == Launched(Point(x, y), Point(targetX, targetY), speed, isEnemy)
      ensures Valid()
    {
      this.x, this.y := x, y;
      this.targetX, this.targetY := targetX, targetY;
      this.speed := speed;
      this.isEnemy := isEnemy;
      this.isExploded := false;
      this.currentFrameIndex := 0;
      this.lastFrameChangeTime := 0;
      this.explosionComplete := false;
    }

    method Explode(now: int)
      modifies this
      ensures State() == Exploded(old(State()), now)
    {
      isExploded := true;
      lastFrameChangeTime := now;
    }

    /** Returns whether the explosion was already complete, that is,
        whether the source calls `destroy()` here. */
    method UpdateExplosionAnimation(now: int) returns (destroy: bool)
      requires Valid() && isExploded
      modifies this
      ensures destroy == old(explosionComplete)
      ensures !destroy ==> State() == AdvanceExplosion(old(State()), now)
      ensures destroy ==> State() == old(State())
    {
      if !explosionComplete {
        destroy := false;
        if now - lastFrameChangeTime > ExplosionFrameDuration {
          currentFrameIndex := (currentFrameIndex + 1) % ExplosionFrameCount;
          lastFrameChangeTime := now;
          if currentFrameIndex == ExplosionFrameCount - 1 {
            explosionComplete := true;
          }
        }
      } else {
        destroy := true;
      }
    }

    /** `update()`; returns whether it ended in `destroy()`, which the game
        carries out on its lists. */
    method Update(now: int, move: Move) returns (destroy: bool)
      requires Valid()
      modifies this
      ensures Outcome(State(), destroy)
              == Updated(old(State()), move(old(State()).pos, old(State()).target, speed), now)
    {
      if !isExploded {
        var p := move(Point(x, y), Point(targetX, targetY), speed);
        x, y := p.x, p.y;
        if isEnemy && y >= GroundY {
          Explode(now);
        } else if RootBelow(DistSq(Point(targetX, targetY), Point(x, y)), speed) {
          Explode(now);
        }
        destroy := false;
      } else {
        destroy := UpdateExplosionAnimation(now);
      }
    }
  }
}
