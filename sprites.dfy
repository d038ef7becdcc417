/** The five sprite kinds of the pygame version (sprites.py) and their per-frame
    update rules.

    Each sprite is a class whose fields its `Update` changes in place. The pygame
    groups that the Python update receives (and adds to, or removes sprites from)
    are passed in as sequences and returned updated; `kill()` removes the sprite
    from `home`, the one group that holds it. Each rule that matters is also a
    pure step function (ShipX, DriftStep, AnimStep) with the lemmas about it. */
module Sprites {
  import opened Geometry
  import opened Config
  import opened Groups

  /** The keys held down during a frame (`pygame.key.get_pressed()`). */
  datatype Keys = Keys(left: bool, right: bool, space: bool)

  function Abs(n: int): (r: int)
    ensures r >= 0 && (r == n || r == -n)
  {
    if n < 0 then -n else n
  }

  // ------------------------------------------------------------------
  // Spaceship
  // ------------------------------------------------------------------

  /** The ship's new left edge. LEFT is handled first and only while the left
      edge is right of 0; RIGHT is then checked against the moved box and only
      while the right edge is left of SCREEN_WIDTH. Neither is a clamp: the box
      may overshoot an edge, but by less than one step. */
  function ShipX(x: int, w: int, keys: Keys): (nx: int)
    ensures !keys.left && !keys.right ==> nx == x
    ensures keys.left && !keys.right ==> nx == if x > 0 then x - PLAYER_SPEED else x
    ensures keys.right && !keys.left ==> nx == if x + w < SCREEN_WIDTH then x + PLAYER_SPEED else x
    // Both keys away from the edges cancel out: left, then right from the moved box.
    ensures keys.left && keys.right && x > 0 && x - PLAYER_SPEED + w < SCREEN_WIDTH ==> nx == x
    ensures nx < x ==> keys.left && x > 0
    ensures nx > x ==> keys.right
    ensures -PLAYER_SPEED < x ==> -PLAYER_SPEED < nx
    ensures x + w < SCREEN_WIDTH + PLAYER_SPEED ==> nx + w < SCREEN_WIDTH + PLAYER_SPEED
  {
    var x1 := if keys.left && x > 0 then x - PLAYER_SPEED else x;
    if keys.right && x1 + w < SCREEN_WIDTH then x1 + PLAYER_SPEED else x1
  }

  /** With both keys held, the move is the LEFT move followed by the RIGHT
      move from where that left the ship. */
  lemma ShipXBothKeys(x: int, w: int, space: bool)
    ensures ShipX(x, w, Keys(true, true, space)) ==
            ShipX(ShipX(x, w, Keys(true, false, space)), w, Keys(false, true, space))
  {
  }

  /** SPACE is held and more than PLAYER_COOLDOWN ms passed since the last shot. */
  predicate ShotReady(now: int, lastShot: int, keys: Keys) {
    keys.space && now - lastShot > PLAYER_COOLDOWN
  }

  class Spaceship {
    var rect: Rect
    const healthStart: int
    var healthRemaining: int
    var lastShot: int

    constructor (x: int, y: int, health: int, size: Size, now: int)
      ensures rect == Centered(x, y, size)
      ensures healthStart == health && healthRemaining == health
      ensures lastShot == now
    {
      rect := Centered(x, y, size);
      healthStart := health;
      healthRemaining := health;
      lastShot := now;
    }

    /** One frame: move, maybe shoot, and die when no health is left. Returns -1
        when the ship died this frame and 0 otherwise. */
    method Update(now: int, keys: Keys, bulletSize: Size,
                  bullets: seq<Bullet>, explosions: seq<Explosion>, ships: seq<Spaceship>)
      returns (status: int, bullets': seq<Bullet>, explosions': seq<Explosion>, ships': seq<Spaceship>)
      modifies this
      ensures rect == old(rect).(x := ShipX(old(rect.x), old(rect.w), keys))
      ensures healthRemaining == old(healthRemaining)
      ensures ShotReady(now, old(lastShot), keys) ==>
                && lastShot == now
                && |bullets'| == |bullets| + 1 && bullets'[..|bullets|] == bullets
                && fresh(bullets'[|bullets|])
                && bullets'[|bullets|].rect == Centered(rect.CenterX(), rect.Top(), bulletSize)
      ensures !ShotReady(now, old(lastShot), keys) ==> lastShot == old(lastShot) && bullets' == bullets
      ensures Distinct(bullets) ==> Distinct(bullets')
      ensures forall b :: b in bullets' ==> b in bullets || fresh(b)
      ensures status == (if healthRemaining <= 0 then -1 else 0)
      ensures status == -1 ==>
                && ships' == Without(ships, this)
                && |explosions'| == |explosions| + 1 && explosions'[..|explosions|] == explosions
                && fresh(explosions'[|explosions|])
                && explosions'[|explosions|].Starts(rect.CenterX(), rect.CenterY(), 3)
      ensures status == 0 ==> ships' == ships && explosions' == explosions
      ensures Distinct(ships) ==> Distinct(ships')
      ensures forall s :: s in ships' ==> s in ships
      ensures Distinct(explosions) ==> Distinct(explosions')
      ensures forall e :: e in explosions' ==> e in explosions || (fresh(e) && e.Valid())
    {
      status, bullets', explosions', ships' := 0, bullets, explosions, ships;
      if keys.left && rect.Left() > 0 {
        rect := rect.MovedX(-PLAYER_SPEED);
      }
      if keys.right && rect.Right() < SCREEN_WIDTH {
        rect := rect.MovedX(PLAYER_SPEED);
      }
      if keys.space && now - lastShot > PLAYER_COOLDOWN {
        var bullet := new Bullet(rect.CenterX(), rect.Top(), bulletSize);
        bullets' := Added(bullets', bullet);
        lastShot := now;
      }
      if healthRemaining <= 0 {
        var explosion := new Explosion(rect.CenterX(), rect.CenterY(), 3);
        explosions' := Added(explosions', explosion);
        ships' := Without(ships', this);
        status := -1;
      }
    }
  }

  // ------------------------------------------------------------------
  // Player bullet
  // ------------------------------------------------------------------

  /** The aliens that survive `spritecollide(bullet, aliens, True)`: every alien
      whose box the bullet's box overlaps is removed, all of them at once. */
  function Untouched(r: Rect, aliens: seq<Alien>): (rest: seq<Alien>)
    reads aliens
    ensures forall a :: a in rest ==> a in aliens && !r.Collides(a.rect)
    ensures forall a :: a in aliens && !r.Collides(a.rect) ==> a in rest
    ensures (forall a :: a in aliens ==> !r.Collides(a.rect)) ==> rest == aliens
    ensures |rest| <= |aliens|
    ensures (exists a :: a in aliens && r.Collides(a.rect)) ==> |rest| < |aliens|
    ensures Distinct(aliens) ==> Distinct(rest)
  {
    if aliens == [] then []
    else
      var tail := Untouched(r, aliens[1..]);
      DistinctCons(aliens[0], aliens[1..]);
      DistinctCons(aliens[0], tail);
      if r.Collides(aliens[0].rect) then tail else [aliens[0]] + tail
  }

  class Bullet {
    var rect: Rect

    constructor (x: int, y: int, size: Size)
      ensures rect == Centered(x, y, size)
    {
      rect := Centered(x, y, size);
    }

    /** One frame: fly up, leave the screen, or destroy every alien it overlaps.
        `hit` reports the collision to the caller, which scores it. */
    method Update(aliens: seq<Alien>, explosions: seq<Explosion>, home: seq<Bullet>)
      returns (aliens': seq<Alien>, explosions': seq<Explosion>, home': seq<Bullet>, hit: bool)
      modifies this
      ensures rect == old(rect).MovedY(-PLAYER_BULLET_SPEED)
      ensures hit <==> exists a :: a in aliens && rect.Collides(a.rect)
      ensures aliens' == Untouched(rect, aliens)
      ensures home' == if hit || rect.Bottom() < 0 then Without(home, this) else home
      ensures hit ==>
                && |explosions'| == |explosions| + 1 && explosions'[..|explosions|] == explosions
                && fresh(explosions'[|explosions|])
                && explosions'[|explosions|].Starts(rect.CenterX(), rect.CenterY(), 2)
      ensures !hit ==> explosions' == explosions
      ensures Distinct(explosions) ==> Distinct(explosions')
      ensures forall e :: e in explosions' ==> e in explosions || (fresh(e) && e.Valid())
    {
      rect := rect.MovedY(-PLAYER_BULLET_SPEED);
      home' := home;
      if rect.Bottom() < 0 {
        home' := Without(home', this);
      }
      aliens' := Untouched(rect, aliens);
      hit := |aliens'| < |aliens|;
      explosions' := explosions;
      if hit {
        home' := Without(home', this);
        var explosion := new Explosion(rect.CenterX(), rect.CenterY(), 2);
        explosions' := Added(explosions', explosion);
      }
    }
  }

  // ------------------------------------------------------------------
  // Alien
  // ------------------------------------------------------------------

  /** The part of an alien that moves: its left edge, its move counter and its
      move direction. */
  datatype Drift = Drift(x: int, counter: int, direction: int)

  /** One alien update: step by the current direction, count the step, and when
      the counter's magnitude exceeds ALIEN_MOVE_DISTANCE reverse the direction and
      multiply the counter by the NEW direction. */
  function DriftStep(d: Drift): (e: Drift)
    ensures e.x == d.x + d.direction
    ensures Abs(e.direction) == Abs(d.direction)
    ensures d.direction != 0 ==> (e.direction == -d.direction <==> Abs(d.counter + 1) > ALIEN_MOVE_DISTANCE)
    ensures d.direction != 0 && e.direction == d.direction ==> e.counter == d.counter + 1
    ensures d.direction != 0 && e.direction != d.direction ==> e.counter == (d.counter + 1) * e.direction
    ensures CounterOk(d) ==> CounterOk(e)
  {
    var c := d.counter + 1;
    if Abs(c) > ALIEN_MOVE_DISTANCE then Drift(d.x + d.direction, c * -d.direction, -d.direction)
    else Drift(d.x + d.direction, c, d.direction)
  }

  /** The counter and direction values an alien can reach from its start
      (counter 0, direction ALIEN_MOVE_SPEED): the direction is one step either
      way, and the counter never leaves [-(DISTANCE+2), DISTANCE+1]. */
  predicate CounterOk(d: Drift) {
    || (d.direction == ALIEN_MOVE_SPEED && -(ALIEN_MOVE_DISTANCE + 1) <= d.counter <= ALIEN_MOVE_DISTANCE + 1)
    || (d.direction == -ALIEN_MOVE_SPEED && -(ALIEN_MOVE_DISTANCE + 2) <= d.counter <= ALIEN_MOVE_DISTANCE)
  }

  /** `n` updates of an alien spawned with left edge x0. */
  function DriftAfter(x0: int, n: nat): Drift {
    if n == 0 then Drift(x0, 0, ALIEN_MOVE_SPEED) else DriftStep(DriftAfter(x0, n - 1))
  }

  /** How the offset from the spawn point follows the counter: while moving right
      the offset equals the counter, while moving left it is its negation, except
      in the one state just after each of the two reversals at the left end. */
  predicate WalkOk(x0: int, d: Drift) {
    var off := d.x - x0;
    || (d.direction == 1 && ((off == d.counter && -(ALIEN_MOVE_DISTANCE + 1) <= d.counter <= ALIEN_MOVE_DISTANCE)
                             || (off == -(ALIEN_MOVE_DISTANCE + 1) && d.counter == ALIEN_MOVE_DISTANCE + 1)))
    || (d.direction == -1 && ((off == -d.counter && -(ALIEN_MOVE_DISTANCE + 1) <= d.counter <= ALIEN_MOVE_DISTANCE)
                              || (off == -ALIEN_MOVE_DISTANCE && d.counter == -(ALIEN_MOVE_DISTANCE + 2))))
  }

  lemma WalkOkStep(x0: int, d: Drift)
    requires WalkOk(x0, d)
    ensures WalkOk(x0, DriftStep(d))
  {
  }

  /** However long it lives, an alien's direction stays one step either way, its
      counter stays within DISTANCE+2 of zero and it never drifts more than
      DISTANCE+1 pixels from where it was spawned. */
  lemma {:induction false} DriftBounded(x0: int, n: nat)
    ensures CounterOk(DriftAfter(x0, n)) && WalkOk(x0, DriftAfter(x0, n))
    ensures Abs(DriftAfter(x0, n).counter) <= ALIEN_MOVE_DISTANCE + 2
    ensures Abs(DriftAfter(x0, n).x - x0) <= ALIEN_MOVE_DISTANCE + 1
  {
    if n > 0 {
      DriftBounded(x0, n - 1);
      WalkOkStep(x0, DriftAfter(x0, n - 1));
    }
  }

  class Alien {
    var rect: Rect
    var moveCounter: int
    var moveDirection: int

    /** The moving part of this alien. */
    function State(): Drift
      reads this
    {
      Drift(rect.x, moveCounter, moveDirection)
    }

    ghost predicate Valid()
      reads this
    {
      CounterOk(State())
    }

    constructor (x: int, y: int, size: Size)
      ensures rect == Centered(x, y, size)
      ensures moveCounter == 0 && moveDirection == ALIEN_MOVE_SPEED
      ensures Valid()
    {
      rect := Centered(x, y, size);
      moveCounter := 0;
      moveDirection := ALIEN_MOVE_SPEED;
    }

    /** One frame of the back-and-forth drift; y never changes. */
    method Update()
      modifies this
      ensures State() == DriftStep(old(State()))
      ensures rect.y == old(rect.y) && rect.w == old(rect.w) && rect.h == old(rect.h)
      ensures old(Valid()) ==> Valid()
    {
      rect := rect.MovedX(moveDirection);
      moveCounter := moveCounter + 1;
      if Abs(moveCounter) > ALIEN_MOVE_DISTANCE {
        moveDirection := moveDirection * -1;
        moveCounter := moveCounter * moveDirection;
      }
    }
  }

  // ------------------------------------------------------------------
  // Alien bullet
  // ------------------------------------------------------------------

  /** `spritecollide(bullet, ships, False, collide_mask)` is non-empty. The
      pixel-mask test is the caller's `maskHit(bulletBox, shipBox)`. */
  predicate Strikes(r: Rect, ships: seq<Spaceship>, maskHit: (Rect, Rect) -> bool)
    reads ships
  {
    exists s :: s in ships && maskHit(r, s.rect)
  }

  /** `Strikes` with the ships' boxes taken from the snapshot `ships`. */
  predicate HitsShip(r: Rect, ships: seq<Rect>, maskHit: (Rect, Rect) -> bool) {
    exists k :: 0 <= k < |ships| && maskHit(r, ships[k])
  }

  /** A bullet strikes the group exactly when it strikes one of its boxes. */
  lemma StrikesIsHitsShip(r: Rect, ships: seq<Spaceship>, boxes: seq<Rect>, maskHit: (Rect, Rect) -> bool)
    requires |boxes| == |ships|
    requires forall k :: 0 <= k < |ships| ==> ships[k].rect == boxes[k]
    ensures Strikes(r, ships, maskHit) <==> HitsShip(r, boxes, maskHit)
  {
    if Strikes(r, ships, maskHit) {
      var s :| s in ships && maskHit(r, s.rect);
      var k :| 0 <= k < |ships| && ships[k] == s;
      assert maskHit(r, boxes[k]);
    }
    if HitsShip(r, boxes, maskHit) {
      var k :| 0 <= k < |boxes| && maskHit(r, boxes[k]);
      assert ships[k] in ships;
    }
  }

  /** `for spaceship in spaceship_group: spaceship.health_remaining -= 1` */
  method Wound(ships: seq<Spaceship>)
    requires Distinct(ships)
    modifies ships
    ensures forall k :: 0 <= k < |ships| ==> ships[k].healthRemaining == old(ships[k].healthRemaining) - 1
    ensures forall k :: 0 <= k < |ships| ==> ships[k].rect == old(ships[k].rect) && ships[k].lastShot == old(ships[k].lastShot)
  {
    for i := 0 to |ships|
      invariant forall k :: 0 <= k < i ==> ships[k].healthRemaining == old(ships[k].healthRemaining) - 1
      invariant forall k :: i <= k < |ships| ==> ships[k].healthRemaining == old(ships[k].healthRemaining)
      invariant forall k :: 0 <= k < |ships| ==> ships[k].rect == old(ships[k].rect) && ships[k].lastShot == old(ships[k].lastShot)
    {
      ships[i].healthRemaining := ships[i].healthRemaining - 1;
    }
  }

  class AlienBullet {
    var rect: Rect

    constructor (x: int, y: int, size: Size)
      ensures rect == Centered(x, y, size)
    {
      rect := Centered(x, y, size);
    }

    /** One frame: fall, leave the screen, or hit the ship, whose box is
        the snapshot `boxes`. A hit costs every ship in the group exactly one
        health point, even one already at zero. */
    method Update(ships: seq<Spaceship>, explosions: seq<Explosion>, home: seq<AlienBullet>,
                  maskHit: (Rect, Rect) -> bool, ghost boxes: seq<Rect>)
      returns (explosions': seq<Explosion>, home': seq<AlienBullet>)
      requires Distinct(ships)
      requires |boxes| == |ships| && forall k :: 0 <= k < |ships| ==> ships[k].rect == boxes[k]
      modifies this, ships
      ensures rect == old(rect).MovedY(ALIEN_BULLET_SPEED)
      ensures forall k :: 0 <= k < |ships| ==> ships[k].rect == boxes[k] && ships[k].lastShot == old(ships[k].lastShot)
      ensures forall k :: 0 <= k < |ships| ==>
                ships[k].healthRemaining == old(ships[k].healthRemaining) - (if HitsShip(rect, boxes, maskHit) then 1 else 0)
      ensures home' == if HitsShip(rect, boxes, maskHit) || rect.Top() > SCREEN_HEIGHT then Without(home, this) else home
      ensures HitsShip(rect, boxes, maskHit) ==>
                && |explosions'| == |explosions| + 1 && explosions'[..|explosions|] == explosions
                && fresh(explosions'[|explosions|])
                && explosions'[|explosions|].Starts(rect.CenterX(), rect.CenterY(), 1)
      ensures !HitsShip(rect, boxes, maskHit) ==> explosions' == explosions
      ensures Distinct(explosions) ==> Distinct(explosions')
      ensures forall e :: e in explosions' ==> e in explosions || (fresh(e) && e.Valid())
    {
      rect := rect.MovedY(ALIEN_BULLET_SPEED);
      home' := home;
      if rect.Top() > SCREEN_HEIGHT {
        home' := Without(home', this);
      }
      explosions' := explosions;
      StrikesIsHitsShip(rect, ships, boxes, maskHit);
      if Strikes(rect, ships, maskHit) {
        home' := Without(home', this);
        Wound(ships);
        var explosion := new Explosion(rect.CenterX(), rect.CenterY(), 1);
        explosions' := Added(explosions', explosion);
      }
    }
  }

  // ------------------------------------------------------------------
  // Explosion
  // ------------------------------------------------------------------

  /** Animation frame shown and frames-since-last-advance counter. */
  datatype Anim = Anim(index: int, counter: int)

  const LAST_FRAME: int := EXPLOSION_FRAMES - 1

  /** The explosion removes itself: last frame shown and held EXPLOSION_SPEED updates. */
  predicate AnimDone(a: Anim) {
    a.index >= LAST_FRAME && a.counter >= EXPLOSION_SPEED
  }

  /** The states a live explosion can be in between updates. */
  predicate AnimLive(a: Anim) {
    0 <= a.index <= LAST_FRAME && 0 <= a.counter < EXPLOSION_SPEED
  }

  /** One explosion update: count, and once the count reaches EXPLOSION_SPEED
      advance one frame and restart the count, unless the last frame is shown. */
  function AnimStep(a: Anim): (b: Anim)
    ensures a.index <= b.index <= a.index + 1
    ensures 0 <= a.index <= LAST_FRAME ==> 0 <= b.index <= LAST_FRAME
    ensures b.index == a.index + 1 <==> a.counter + 1 >= EXPLOSION_SPEED && a.index < LAST_FRAME
    ensures b.index == a.index + 1 ==> b.counter == 0
    ensures a.index < LAST_FRAME ==> !AnimDone(b)
    ensures AnimLive(a) && !AnimDone(b) ==> AnimLive(b)
  {
    var c := a.counter + 1;
    if c >= EXPLOSION_SPEED && a.index < LAST_FRAME then Anim(a.index + 1, 0) else Anim(a.index, c)
  }

  /** The animation state after `n` updates of a new explosion. */
  function AnimAfter(n: nat): Anim {
    if n == 0 then Anim(0, 0) else AnimStep(AnimAfter(n - 1))
  }

  /** Frame i is shown for exactly EXPLOSION_SPEED updates, the last one included. */
  lemma {:induction false} AnimClosedForm(n: nat)
    requires n <= EXPLOSION_FRAMES * EXPLOSION_SPEED
    ensures n <= LAST_FRAME * EXPLOSION_SPEED ==> AnimAfter(n) == Anim(n / EXPLOSION_SPEED, n % EXPLOSION_SPEED)
    ensures n >= LAST_FRAME * EXPLOSION_SPEED ==> AnimAfter(n) == Anim(LAST_FRAME, n - LAST_FRAME * EXPLOSION_SPEED)
  {
    if n > 0 {
      AnimClosedForm(n - 1);
    }
  }

  /** A new explosion is removed by exactly its EXPLOSION_FRAMES * EXPLOSION_SPEED-th
      update (the 15th) and by none before. */
  lemma ExplosionLifetime(n: nat)
    requires 1 <= n <= EXPLOSION_FRAMES * EXPLOSION_SPEED
    ensures AnimDone(AnimAfter(n)) <==> n == EXPLOSION_FRAMES * EXPLOSION_SPEED
    ensures n < EXPLOSION_FRAMES * EXPLOSION_SPEED ==> AnimLive(AnimAfter(n))
  {
    AnimClosedForm(n);
  }

  class Explosion {
    const rect: Rect
    var index: int
    var counter: int

    /** The animation part of this explosion. */
    function Frame(): Anim
      reads this
    {
      Anim(index, counter)
    }

    ghost predicate Valid()
      reads this
    {
      AnimLive(Frame())
    }

    /** A new explosion of size class `size` centred on (x, y), first frame. */
    ghost predicate Starts(x: int, y: int, size: int)
      reads this
      requires 1 <= size <= 3
    {
      rect == Centered(x, y, ExplosionSize(size)) && index == 0 && counter == 0
    }

    constructor (x: int, y: int, size: int)
      requires 1 <= size <= 3
      ensures Starts(x, y, size) && Valid()
    {
      rect := Centered(x, y, ExplosionSize(size));
      index := 0;
      counter := 0;
    }

    /** One frame of animation; the explosion kills itself once done. */
    method Update(home: seq<Explosion>) returns (home': seq<Explosion>)
      modifies this
      ensures Frame() == AnimStep(old(Frame()))
      ensures AnimDone(Frame()) ==> home' == Without(home, this)
      ensures !AnimDone(Frame()) ==> home' == home
      ensures forall e :: e in home' ==> e in home
      ensures forall e :: e in home && e != this ==> e in home'
      ensures this !in home' || home' == home
      ensures Distinct(home) ==> Distinct(home')
      ensures old(Valid()) && !AnimDone(Frame()) ==> Valid()
    {
      counter := counter + 1;
      if counter >= EXPLOSION_SPEED && index < EXPLOSION_FRAMES - 1 {
        counter := 0;
        index := index + 1;
      }
      home' := home;
      if index >= EXPLOSION_FRAMES - 1 && counter >= EXPLOSION_SPEED {
        home' := Without(home', this);
      }
    }
  }
}
