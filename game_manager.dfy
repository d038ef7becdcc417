/** The match state machine of the pygame version (game_manager.py): new game,
    countdown, alien volleys, the per-tick update order, scoring and reset. */
module GameManagement {
  import opened Geometry
  import opened Config
  import opened Groups
  import opened Sprites

  datatype GameState = Menu | Playing | GameOver | Victory

  /** The `game_over` code that goes with each state: 0 while in the menu or
      playing, 1 after a victory, -1 after a defeat. */
  function OutcomeCode(s: GameState): (code: int)
    ensures code == 0 <==> s == Menu || s == Playing
    ensures code == 1 <==> s == Victory
    ensures code == -1 <==> s == GameOver
  {
    match s
    case Menu => 0
    case Playing => 0
    case GameOver => -1
    case Victory => 1
  }

  /** Points for each `handle_bullet_collision`. */
  const POINTS_PER_HIT: int := 10

  // ------------------------------------------------------------------
  // Countdown
  // ------------------------------------------------------------------

  /** Seconds left before play starts, and when the last one was counted off. */
  datatype Countdown = Countdown(count: int, lastCount: int)

  /** `update_countdown` at time `now`. */
  function CountdownTick(c: Countdown, now: int): (d: Countdown)
    ensures d.count == c.count - 1 <==> c.count > 0 && now - c.lastCount > 1000
    ensures d.count == c.count - 1 ==> d.lastCount == now
    ensures d.count != c.count - 1 ==> d == c
    ensures c.count >= 0 ==> d.count >= 0
  {
    if c.count > 0 && now - c.lastCount > 1000 then Countdown(c.count - 1, now) else c
  }

  /** The countdown after one tick at each of the clock readings in `times`. */
  function CountdownRun(c: Countdown, times: seq<int>): Countdown
    decreases |times|
  {
    if times == [] then c else CountdownRun(CountdownTick(c, times[0]), times[1..])
  }

  /** Every second counted off needs more than 1000 ms on the clock since the
      previous one, whatever clock readings are supplied: after any run the last
      count lies more than 1000 ms per counted second after the start, at a
      supplied reading, and the countdown never goes below zero. */
  lemma {:induction false} CountdownPacing(c: Countdown, times: seq<int>)
    requires c.count >= 0
    ensures 0 <= CountdownRun(c, times).count <= c.count
    ensures CountdownRun(c, times).lastCount >= c.lastCount + 1001 * (c.count - CountdownRun(c, times).count)
    ensures CountdownRun(c, times).count < c.count ==> CountdownRun(c, times).lastCount in times
    ensures CountdownRun(c, times).count == c.count ==> CountdownRun(c, times) == c
    decreases |times|
  {
    if times != [] {
      var c1 := CountdownTick(c, times[0]);
      CountdownPacing(c1, times[1..]);
    }
  }

  /** Play cannot start until more than 3003 ms after a new game or a reset:
      a countdown of COUNTDOWN_TIME only reaches zero at a clock reading at least
      that far from the reading it started from. */
  lemma CountdownTakesThreeSeconds(start: int, times: seq<int>)
    requires CountdownRun(Countdown(COUNTDOWN_TIME, start), times).count == 0
    ensures exists t :: t in times && t >= start + 1001 * COUNTDOWN_TIME
  {
    CountdownPacing(Countdown(COUNTDOWN_TIME, start), times);
  }

  // ------------------------------------------------------------------
  // Alien volleys
  // ------------------------------------------------------------------

  /** The guard of `update_alien_shooting`. */
  predicate AlienMayShoot(now: int, lastShot: int, liveBullets: int, aliens: int) {
    now - lastShot > ALIEN_COOLDOWN && liveBullets < MAX_ALIEN_BULLETS && aliens > 0
  }

  // ------------------------------------------------------------------
  // Player bullets against the formation
  // ------------------------------------------------------------------

  /** The boxes of `bullets`, in order. */
  function Boxes(bullets: seq<Bullet>): (r: seq<Rect>)
    reads bullets
    ensures |r| == |bullets| && forall k :: 0 <= k < |bullets| ==> r[k] == bullets[k].rect
  {
    seq(|bullets|, k requires 0 <= k < |bullets| reads bullets => bullets[k].rect)
  }

  /** `boxes`, each moved up by a player bullet's speed. */
  function Raised(boxes: seq<Rect>): (r: seq<Rect>)
    ensures |r| == |boxes| && forall k :: 0 <= k < |boxes| ==> r[k] == boxes[k].MovedY(-PLAYER_BULLET_SPEED)
  {
    seq(|boxes|, k requires 0 <= k < |boxes| => boxes[k].MovedY(-PLAYER_BULLET_SPEED))
  }

  /** A snapshot of every alien's box. */
  function BoxMap(aliens: seq<Alien>): (m: map<Alien, Rect>)
    reads set a | a in aliens
    ensures forall a :: a in aliens ==> a in m && m[a] == a.rect
  {
    map a | a in aliens :: a.rect
  }

  /** `Untouched` with the aliens' boxes taken from the snapshot `at`. */
  function Clear(r: Rect, aliens: seq<Alien>, at: map<Alien, Rect>): (rest: seq<Alien>)
    requires forall a :: a in aliens ==> a in at
    ensures forall a :: a in rest ==> a in aliens && !r.Collides(at[a])
    ensures forall a :: a in aliens && !r.Collides(at[a]) ==> a in rest
    ensures |rest| <= |aliens|
    ensures (forall a :: a in aliens ==> !r.Collides(at[a])) ==> rest == aliens
    ensures (exists a :: a in aliens && r.Collides(at[a])) ==> |rest| < |aliens|
    ensures Distinct(aliens) ==> Distinct(rest)
  {
    if aliens == [] then []
    else
      var tail := Clear(r, aliens[1..], at);
      DistinctCons(aliens[0], aliens[1..]);
      DistinctCons(aliens[0], tail);
      if r.Collides(at[aliens[0]]) then tail else [aliens[0]] + tail
  }

  /** While the snapshot agrees with the boxes, the two filters agree. */
  lemma {:induction false} UntouchedIsClear(r: Rect, aliens: seq<Alien>, at: map<Alien, Rect>)
    requires forall a :: a in aliens ==> a in at && at[a] == a.rect
    ensures Untouched(r, aliens) == Clear(r, aliens, at)
    decreases |aliens|
  {
    if aliens != [] {
      UntouchedIsClear(r, aliens[1..], at);
    }
  }

  /** The aliens left after bullets with the given boxes fly one after the
      other, each removing every alien it overlaps. */
  function Spared(aliens: seq<Alien>, at: map<Alien, Rect>, boxes: seq<Rect>): (r: seq<Alien>)
    requires forall a :: a in aliens ==> a in at
    ensures forall a :: a in r ==> a in aliens
    ensures |r| <= |aliens|
    ensures Distinct(aliens) ==> Distinct(r)
    decreases |boxes|
  {
    if boxes == [] then aliens
    else Clear(boxes[|boxes| - 1], Spared(aliens, at, boxes[..|boxes| - 1]), at)
  }

  /** The k-th bullet strikes: its box overlaps an alien the bullets before
      it left alive. */
  predicate StrikesAt(aliens: seq<Alien>, at: map<Alien, Rect>, boxes: seq<Rect>, k: int)
    requires forall a :: a in aliens ==> a in at
    requires 0 <= k < |boxes|
  {
    var before := Spared(aliens, at, boxes[..k]);
    Clear(boxes[k], before, at) != before
  }

  /** The k-th bullet strikes exactly when its box overlaps an alien the
      bullets before it left alive. */
  lemma StrikesAtMeans(aliens: seq<Alien>, at: map<Alien, Rect>, boxes: seq<Rect>, k: int)
    requires forall a :: a in aliens ==> a in at
    requires 0 <= k < |boxes|
    ensures StrikesAt(aliens, at, boxes, k) <==> exists a :: a in Spared(aliens, at, boxes[..k]) && boxes[k].Collides(at[a])
  {
  }

  /** Whether a bullet strikes depends only on the bullets before it. */
  lemma StrikesAtPrefix(aliens: seq<Alien>, at: map<Alien, Rect>, boxes: seq<Rect>, n: int, k: int)
    requires forall a :: a in aliens ==> a in at
    requires 0 <= k < n <= |boxes|
    ensures StrikesAt(aliens, at, boxes[..n], k) == StrikesAt(aliens, at, boxes, k)
  {
    assert boxes[..n][..k] == boxes[..k] && boxes[..n][k] == boxes[k];
  }

  /** The bullets that strike, in order. */
  function Scorers(aliens: seq<Alien>, at: map<Alien, Rect>, bullets: seq<Bullet>, boxes: seq<Rect>): (r: seq<Bullet>)
    requires forall a :: a in aliens ==> a in at
    requires |bullets| == |boxes|
    ensures forall b :: b in r ==> b in bullets
    decreases |boxes|
  {
    if boxes == [] then []
    else
      var n := |boxes| - 1;
      Scorers(aliens, at, bullets[..n], boxes[..n]) + (if StrikesAt(aliens, at, boxes, n) then [bullets[n]] else [])
  }

  /** One more bullet: the aliens it overlaps go, and it scores when there
      was one. */
  lemma BulletStep(aliens: seq<Alien>, at: map<Alien, Rect>, bullets: seq<Bullet>, boxes: seq<Rect>, i: int)
    requires forall a :: a in aliens ==> a in at
    requires |bullets| == |boxes| && 0 <= i < |boxes|
    ensures Spared(aliens, at, boxes[..i + 1]) == Clear(boxes[i], Spared(aliens, at, boxes[..i]), at)
    ensures Scorers(aliens, at, bullets[..i + 1], boxes[..i + 1]) ==
            Scorers(aliens, at, bullets[..i], boxes[..i]) + (if StrikesAt(aliens, at, boxes, i) then [bullets[i]] else [])
  {
    assert boxes[..i + 1][..i] == boxes[..i];
    assert bullets[..i + 1][..i] == bullets[..i];
    assert StrikesAt(aliens, at, boxes[..i + 1], i) == StrikesAt(aliens, at, boxes, i);
  }

  /** The volley on values, once the first `i` bullets of `flying` have
      had their turn: `bullets` is what is left of the group, `leave` flags
      the bullets that went, `left` is the formation and `hitters` are the
      bullets that struck. */
  ghost predicate Volley(aliens: seq<Alien>, at: map<Alien, Rect>, flying: seq<Bullet>, boxes: seq<Rect>, i: nat,
                         leave: seq<bool>, hitters: seq<Bullet>, bullets: seq<Bullet>, left: seq<Alien>)
  {
    && (forall a :: a in aliens ==> a in at)
    && Distinct(flying) && i <= |flying| == |boxes| && |leave| == i
    && bullets == Kept(flying[..i], leave) + flying[i..]
    && left == Spared(aliens, at, boxes[..i])
    && hitters == Scorers(aliens, at, flying[..i], boxes[..i])
    && (forall k :: 0 <= k < i ==> leave[k] == (flying[k] in hitters || boxes[k].Bottom() < 0))
  }

  /** Before any bullet has flown, every bullet and every alien is still there. */
  lemma VolleyStart(aliens: seq<Alien>, at: map<Alien, Rect>, flying: seq<Bullet>, boxes: seq<Rect>)
    requires forall a :: a in aliens ==> a in at
    requires Distinct(flying) && |flying| == |boxes|
    ensures Volley(aliens, at, flying, boxes, 0, [], [], flying, aliens)
  {
    assert flying[..0] == [] && boxes[..0] == [] && flying[0..] == flying;
  }

  /** Bullet `i` takes its turn: it strikes when its box overlaps an alien
      still alive, and leaves when it struck or is off the top. */
  lemma VolleyOn(aliens: seq<Alien>, at: map<Alien, Rect>, flying: seq<Bullet>, boxes: seq<Rect>, i: nat,
                 leave: seq<bool>, hitters: seq<Bullet>, bullets: seq<Bullet>, left: seq<Alien>, hit: bool)
    requires Volley(aliens, at, flying, boxes, i, leave, hitters, bullets, left) && i < |flying|
    requires hit == exists a :: a in left && boxes[i].Collides(at[a])
    ensures var gone := hit || boxes[i].Bottom() < 0;
            Volley(aliens, at, flying, boxes, i + 1, leave + [gone], hitters + (if hit then [flying[i]] else []),
                   if gone then Without(bullets, flying[i]) else bullets, Clear(boxes[i], left, at))
  {
    var gone := hit || boxes[i].Bottom() < 0;
    BulletStep(aliens, at, flying, boxes, i);
    KeptStep(flying, leave, i, gone);
    var b := flying[i];
    assert b !in hitters by {
      assert b !in flying[..i];
    }
    var hitters' := hitters + (if hit then [b] else []);
    forall k | 0 <= k < i + 1 ensures (leave + [gone])[k] == (flying[k] in hitters' || boxes[k].Bottom() < 0) {
      if k < i {
        assert flying[k] != b;
      }
    }
  }

  /** An alien is spared exactly when no bullet box overlaps it. */
  lemma SparedMembers(aliens: seq<Alien>, at: map<Alien, Rect>, boxes: seq<Rect>)
    requires forall a :: a in aliens ==> a in at
    ensures forall a :: a in Spared(aliens, at, boxes) <==>
              a in aliens && forall k :: 0 <= k < |boxes| ==> !boxes[k].Collides(at[a])
  {
    forall a ensures a in Spared(aliens, at, boxes) <==>
                     a in aliens && forall k :: 0 <= k < |boxes| ==> !boxes[k].Collides(at[a])
    {
      SparedHas(aliens, at, boxes, a);
      if a in aliens {
        OverlapMeans(boxes, at[a]);
      }
    }
  }

  /** Some box of `boxes` overlaps `box`. */
  predicate Overlap(boxes: seq<Rect>, box: Rect)
    decreases |boxes|
  {
    boxes != [] && (Overlap(boxes[..|boxes| - 1], box) || boxes[|boxes| - 1].Collides(box))
  }

  /** `Overlap` spelled out over the indices. */
  lemma {:induction false} OverlapMeans(boxes: seq<Rect>, box: Rect)
    ensures Overlap(boxes, box) <==> exists k :: 0 <= k < |boxes| && boxes[k].Collides(box)
    decreases |boxes|
  {
    if boxes != [] {
      var n := |boxes| - 1;
      OverlapMeans(boxes[..n], box);
      if Overlap(boxes[..n], box) {
        var k :| 0 <= k < n && boxes[..n][k].Collides(box);
        assert boxes[k].Collides(box);
      } else {
        forall k | 0 <= k < n ensures !boxes[k].Collides(box) {
          assert boxes[..n][k] == boxes[k];
        }
      }
    }
  }

  /** `SparedMembers` for one alien `x`, with the overlap left as `Overlap`. */
  lemma {:induction false} SparedHas(aliens: seq<Alien>, at: map<Alien, Rect>, boxes: seq<Rect>, x: Alien)
    requires forall a :: a in aliens ==> a in at
    ensures x in Spared(aliens, at, boxes) <==> x in aliens && !Overlap(boxes, at[x])
    decreases |boxes|
  {
    if boxes != [] {
      var n := |boxes| - 1;
      SparedHas(aliens, at, boxes[..n], x);
      ClearHas(boxes[n], Spared(aliens, at, boxes[..n]), at, x);
    }
  }

  /** `Clear`'s membership, for one alien `x`. */
  lemma ClearHas(r: Rect, aliens: seq<Alien>, at: map<Alien, Rect>, x: Alien)
    requires forall a :: a in aliens ==> a in at
    ensures x in Clear(r, aliens, at) <==> x in aliens && !r.Collides(at[x])
  {
  }

  /** Every bullet that strikes takes at least one alien, and the formation
      is intact exactly when no bullet struck. */
  lemma {:induction false} ScorersCount(aliens: seq<Alien>, at: map<Alien, Rect>, bullets: seq<Bullet>, boxes: seq<Rect>)
    requires forall a :: a in aliens ==> a in at
    requires |bullets| == |boxes|
    ensures |Spared(aliens, at, boxes)| + |Scorers(aliens, at, bullets, boxes)| <= |aliens|
    ensures Scorers(aliens, at, bullets, boxes) == [] <==> Spared(aliens, at, boxes) == aliens
    decreases |boxes|
  {
    if boxes != [] {
      var n := |boxes| - 1;
      ScorersCount(aliens, at, bullets[..n], boxes[..n]);
      BulletStep(aliens, at, bullets, boxes, n);
      assert boxes[..n + 1] == boxes && bullets[..n + 1] == bullets;
    }
  }

  /** With no bullet listed twice, a bullet is among the scorers exactly
      when it strikes. */
  lemma {:induction false} ScorersMembers(aliens: seq<Alien>, at: map<Alien, Rect>, bullets: seq<Bullet>, boxes: seq<Rect>)
    requires forall a :: a in aliens ==> a in at
    requires |bullets| == |boxes| && Distinct(bullets)
    ensures forall k :: 0 <= k < |bullets| ==>
              (bullets[k] in Scorers(aliens, at, bullets, boxes) <==> StrikesAt(aliens, at, boxes, k))
    decreases |boxes|
  {
    if boxes != [] {
      var n := |boxes| - 1;
      assert Distinct(bullets[..n]);
      ScorersMembers(aliens, at, bullets[..n], boxes[..n]);
      var front := Scorers(aliens, at, bullets[..n], boxes[..n]);
      ScorersBefore(aliens, at, bullets, boxes);
      var r := Scorers(aliens, at, bullets, boxes);
      assert r == front + (if StrikesAt(aliens, at, boxes, n) then [bullets[n]] else []);
      forall k | 0 <= k < n ensures bullets[k] in r <==> StrikesAt(aliens, at, boxes, k) {
        assert bullets[..n][k] == bullets[k] && bullets[k] != bullets[n];
        StrikesAtPrefix(aliens, at, boxes, n, k);
      }
    }
  }

  /** The last bullet is not among the scorers before it. */
  lemma ScorersBefore(aliens: seq<Alien>, at: map<Alien, Rect>, bullets: seq<Bullet>, boxes: seq<Rect>)
    requires forall a :: a in aliens ==> a in at
    requires |bullets| == |boxes| > 0 && Distinct(bullets)
    ensures bullets[|bullets| - 1] !in Scorers(aliens, at, bullets[..|bullets| - 1], boxes[..|bullets| - 1])
  {
    var n := |bullets| - 1;
    forall b | b in Scorers(aliens, at, bullets[..n], boxes[..n]) ensures b != bullets[n] {
      var j :| 0 <= j < n && bullets[..n][j] == b;
    }
  }

  /** No bullet scores twice. */
  lemma {:induction false} ScorersDistinct(aliens: seq<Alien>, at: map<Alien, Rect>, bullets: seq<Bullet>, boxes: seq<Rect>)
    requires forall a :: a in aliens ==> a in at
    requires |bullets| == |boxes| && Distinct(bullets)
    ensures Distinct(Scorers(aliens, at, bullets, boxes))
    decreases |boxes|
  {
    if boxes != [] {
      var n := |boxes| - 1;
      assert Distinct(bullets[..n]);
      ScorersDistinct(aliens, at, bullets[..n], boxes[..n]);
      ScorersBefore(aliens, at, bullets, boxes);
      DistinctSnoc(Scorers(aliens, at, bullets[..n], boxes[..n]), bullets[n]);
    }
  }

  /** An alien that died was overlapped by a bullet that struck. */
  lemma {:induction false} DeathHasScorer(aliens: seq<Alien>, at: map<Alien, Rect>, boxes: seq<Rect>, a: Alien)
    requires forall a :: a in aliens ==> a in at
    requires a in aliens && a !in Spared(aliens, at, boxes)
    ensures exists k :: 0 <= k < |boxes| && boxes[k].Collides(at[a]) && StrikesAt(aliens, at, boxes, k)
    decreases |boxes|
  {
    var n := |boxes| - 1;
    if a in Spared(aliens, at, boxes[..n]) {
      assert boxes[n].Collides(at[a]);
      StrikesAtMeans(aliens, at, boxes, n);
    } else {
      DeathHasScorer(aliens, at, boxes[..n], a);
      var k :| 0 <= k < n && boxes[..n][k].Collides(at[a]) && StrikesAt(aliens, at, boxes[..n], k);
      StrikesAtPrefix(aliens, at, boxes, n, k);
    }
  }

  /** Bullet `b` is one of the bullets that struck. */
  ghost predicate Scored(hitters: seq<Bullet>, b: Bullet)
  {
    b in hitters
  }

  /** Alien `a` is gone from the formation `left`. */
  ghost predicate Fell(left: seq<Alien>, a: Alien)
  {
    a !in left
  }

  /** How a volley ends, on values: `aliens` and `bullets` are the formation
      and the player bullets before it, `left` the formation after it,
      `hitters` the bullets that struck, `at` the aliens' boxes and `flown`
      the bullets' boxes after their flight. An alien survives exactly when
      no bullet overlaps it; each bullet that struck overlaps an alien that
      died, and each alien that died is overlapped by a bullet that struck. */
  ghost predicate Outcome(aliens: seq<Alien>, left: seq<Alien>, at: map<Alien, Rect>,
                          bullets: seq<Bullet>, hitters: seq<Bullet>, flown: map<Bullet, Rect>)
    requires forall a :: a in aliens ==> a in at
    requires forall b :: b in bullets ==> b in flown
  {
    && (forall a :: a in left ==> a in aliens && forall b :: b in bullets ==> !flown[b].Collides(at[a]))
    && (forall a :: a in aliens && (forall b :: b in bullets ==> !flown[b].Collides(at[a])) ==> a in left)
    && (forall b {:trigger Scored(hitters, b)} :: b in hitters && Scored(hitters, b) ==>
          b in bullets && exists a :: a in aliens && a !in left && flown[b].Collides(at[a]))
    && (forall a {:trigger Fell(left, a)} :: a in aliens && Fell(left, a) ==>
          exists b :: b in hitters && b in bullets && flown[b].Collides(at[a]))
  }

  /** Which player bullets a volley keeps: `kept` holds the bullets of
      `bullets` that neither struck nor ended off the top of the screen,
      and nothing else. */
  ghost predicate Cleared(bullets: seq<Bullet>, kept: seq<Bullet>, hitters: seq<Bullet>, flown: map<Bullet, Rect>)
    requires forall b :: b in bullets ==> b in flown
  {
    && (forall b :: b in kept ==> b in bullets)
    && (forall b :: b in bullets ==> (b in kept <==> b !in hitters && flown[b].Bottom() >= 0))
  }

  /** What one volley of player bullets comes to: the formation `aliens`,
      met at the boxes `at`, is left as `left`; the bullets `bullets`, whose
      boxes after their flight are `boxes` in group order and `flown` by
      bullet, are left as `kept`; `hitters` are the bullets that struck, in
      group order, and each one adds 10 points to `score0`, giving `score`. */
  ghost predicate VolleyDone(aliens: seq<Alien>, left: seq<Alien>, at: map<Alien, Rect>,
                         bullets: seq<Bullet>, kept: seq<Bullet>, boxes: seq<Rect>, flown: map<Bullet, Rect>,
                         hitters: seq<Bullet>, score0: int, score: int)
  {
    && (forall a :: a in aliens ==> a in at)
    && (forall b :: b in bullets ==> b in flown)
    && |boxes| == |bullets|
    // The outcome in group order, as the specification functions give it.
    && left == Spared(aliens, at, boxes)
    && hitters == Scorers(aliens, at, bullets, boxes)
    // 10 points per bullet that struck.
    && score == score0 + POINTS_PER_HIT * |hitters|
    // A bullet stays exactly when it neither struck nor left the top of the screen.
    && Cleared(bullets, kept, hitters, flown)
    // An alien survives exactly when no bullet overlaps its box; each bullet
    // that struck overlaps an alien that died, and each alien that died is
    // overlapped by a bullet that struck.
    && Outcome(aliens, left, at, bullets, hitters, flown)
    // No bullet strikes twice, each strike takes at least one alien, and
    // no strike means no death.
    && Distinct(hitters)
    && |left| + |hitters| <= |aliens|
    && (hitters == [] <==> left == aliens)
  }

  /** What one fall of the alien bullets comes to: the bullets `falling`, at
      `drops` before and at `after` once they fell, are left as `kept`;
      `struck` flags the ones whose new box met the mask of a ship at
      `ships`; every ship's health goes from `health0` to `health`, one point
      per strike, while its box `boxes` and last shot `shots` stay as they
      were. */
  ghost predicate Rained(falling: seq<AlienBullet>, drops: seq<Rect>, after: seq<Rect>, ships: seq<Rect>,
                         maskHit: (Rect, Rect) -> bool, struck: seq<bool>, kept: seq<AlienBullet>,
                         health0: seq<int>, health: seq<int>, shots0: seq<int>, shots: seq<int>, boxes: seq<Rect>)
  {
    && |after| == |drops| == |struck| == |falling|
    && (forall k :: 0 <= k < |falling| ==> after[k] == drops[k].MovedY(ALIEN_BULLET_SPEED))
    && (forall k :: 0 <= k < |falling| ==> struck[k] == HitsShip(after[k], ships, maskHit))
    && (forall b :: b in kept ==> b in falling) && |kept| <= |falling|
    && (forall k :: 0 <= k < |falling| ==> (falling[k] in kept <==> !struck[k] && after[k].Top() <= SCREEN_HEIGHT))
    && |boxes| == |health| == |health0| == |shots| == |shots0| == |ships|
    && (forall k :: 0 <= k < |ships| ==> health[k] == health0[k] - Count(struck))
    && (forall k :: 0 <= k < |ships| ==> boxes[k] == ships[k] && shots[k] == shots0[k])
  }

  /** The formation `aliens`, with drift states `drifts0` and soundness
      `sound0`, of which `left` remains: each alien left has drifted one step,
      to `drifts`, and is still sound, in `sound`, when it was. */
  ghost predicate Drifted(aliens: seq<Alien>, left: seq<Alien>, drifts0: seq<Drift>, drifts: seq<Drift>,
                          sound0: seq<bool>, sound: seq<bool>)
  {
    && |drifts0| == |drifts| == |sound0| == |sound| == |aliens|
    && (forall k :: 0 <= k < |aliens| && aliens[k] in left ==> drifts[k] == DriftStep(drifts0[k]))
    && (forall k :: 0 <= k < |aliens| && aliens[k] in left && sound0[k] ==> sound[k])
  }

  /** A volley takes no more points than the aliens it kills are worth. */
  lemma VolleyScore(aliens: seq<Alien>, left: seq<Alien>, at: map<Alien, Rect>, flown: map<Bullet, Rect>,
                    hitters: seq<Bullet>, score0: int, score: int)
    requires exists bullets, kept, boxes :: VolleyDone(aliens, left, at, bullets, kept, boxes, flown, hitters, score0, score)
    ensures score - score0 + POINTS_PER_HIT * |left| <= POINTS_PER_HIT * |aliens|
    ensures score >= score0
  {
  }

  /** `bullet_group.update` against the formation, whatever the order of the
      bullets, with `flown` giving each bullet's box after its flight: the
      `Outcome` holds; each scorer takes at least one alien, and nobody
      scores when no alien dies. */
  lemma BulletsVersusAliens(aliens: seq<Alien>, at: map<Alien, Rect>, bullets: seq<Bullet>, boxes: seq<Rect>,
                            flown: map<Bullet, Rect>)
    requires forall a :: a in aliens ==> a in at
    requires forall b :: b in bullets ==> b in flown
    requires |boxes| == |bullets| && forall k :: 0 <= k < |bullets| ==> flown[bullets[k]] == boxes[k]
    requires Distinct(bullets)
    ensures var left := Spared(aliens, at, boxes);
            var scorers := Scorers(aliens, at, bullets, boxes);
            && Distinct(scorers)
            && |left| + |scorers| <= |aliens|
            && (scorers == [] <==> left == aliens)
            && Outcome(aliens, left, at, bullets, scorers, flown)
  {
    var left := Spared(aliens, at, boxes);
    var scorers := Scorers(aliens, at, bullets, boxes);
    SparedMembers(aliens, at, boxes);
    ScorersCount(aliens, at, bullets, boxes);
    ScorersMembers(aliens, at, bullets, boxes);
    ScorersDistinct(aliens, at, bullets, boxes);
    forall a | a in aliens
      ensures a in left <==> forall b :: b in bullets ==> !flown[b].Collides(at[a])
    {
      if a !in left {
        var k :| 0 <= k < |boxes| && boxes[k].Collides(at[a]);
        assert bullets[k] in bullets;
      }
    }
    forall a | a in aliens && Fell(left, a) ensures exists b :: b in scorers && b in bullets && flown[b].Collides(at[a]) {
      DeathHasScorer(aliens, at, boxes, a);
      var k :| 0 <= k < |boxes| && boxes[k].Collides(at[a]) && StrikesAt(aliens, at, boxes, k);
      assert bullets[k] in scorers;
    }
    forall b | b in scorers && Scored(scorers, b) ensures b in bullets && exists a :: a in aliens && a !in left && flown[b].Collides(at[a]) {
      var k :| 0 <= k < |bullets| && bullets[k] == b;
      assert StrikesAt(aliens, at, boxes, k);
      StrikesAtMeans(aliens, at, boxes, k);
      var a :| a in Spared(aliens, at, boxes[..k]) && boxes[k].Collides(at[a]);
      assert a in aliens;
    }
  }

  /** Flagging a bullet exactly when it struck or went off the top keeps
      exactly the bullets that did neither. */
  lemma StaysUnlessGone(flying: seq<Bullet>, boxes: seq<Rect>, flown: map<Bullet, Rect>, leave: seq<bool>, hitters: seq<Bullet>)
    requires Distinct(flying) && |leave| == |flying| == |boxes|
    requires forall b :: b in flying ==> b in flown
    requires forall k :: 0 <= k < |flying| ==> flown[flying[k]] == boxes[k]
    requires forall k :: 0 <= k < |flying| ==> leave[k] == (flying[k] in hitters || boxes[k].Bottom() < 0)
    ensures Distinct(Kept(flying, leave))
    ensures Cleared(flying, Kept(flying, leave), hitters, flown)
  {
    KeptMembers(flying, leave);
    forall b | b in flying
      ensures b in Kept(flying, leave) <==> b !in hitters && flown[b].Bottom() >= 0
    {
      var k :| 0 <= k < |flying| && flying[k] == b;
    }
  }

  /** A volley whose every bullet has had its turn, with `flown` giving each
      bullet's box after its flight, comes to `VolleyDone`. */
  lemma VolleyEnds(aliens: seq<Alien>, at: map<Alien, Rect>, flying: seq<Bullet>, boxes: seq<Rect>, leave: seq<bool>,
                   hitters: seq<Bullet>, kept: seq<Bullet>, left: seq<Alien>, flown: map<Bullet, Rect>, score0: int, score: int)
    requires Volley(aliens, at, flying, boxes, |flying|, leave, hitters, kept, left)
    requires forall b :: b in flying ==> b in flown
    requires forall k :: 0 <= k < |flying| ==> flown[flying[k]] == boxes[k]
    requires score == score0 + POINTS_PER_HIT * |hitters|
    ensures VolleyDone(aliens, left, at, flying, kept, boxes, flown, hitters, score0, score)
  {
    assert boxes[..|flying|] == boxes && flying[..|flying|] == flying && flying[|flying|..] == [];
    BulletsVersusAliens(aliens, at, flying, boxes, flown);
    StaysUnlessGone(flying, boxes, flown, leave, hitters);
  }

  /** Changing anything but the aliens' boxes leaves `Untouched` as it was. */
  twostate lemma UntouchedFramed(r: Rect, new aliens: seq<Alien>)
    requires old(allocated(aliens))
    requires forall a :: a in aliens ==> a.rect == old(a.rect)
    ensures Untouched(r, aliens) == old(Untouched(r, aliens))
  {
    var i := |aliens|;
    while i > 0
      invariant 0 <= i <= |aliens|
      invariant Untouched(r, aliens[i..]) == old(Untouched(r, aliens[i..]))
    {
      i := i - 1;
      assert aliens[i..][1..] == aliens[i + 1..];
    }
    assert aliens[0..] == aliens;
  }

  // ------------------------------------------------------------------
  // Alien bullets against the ship
  // ------------------------------------------------------------------

  /** The boxes of `ships`, in order. */
  function ShipBoxes(ships: seq<Spaceship>): (r: seq<Rect>)
    reads ships
    ensures |r| == |ships| && forall k :: 0 <= k < |ships| ==> r[k] == ships[k].rect
  {
    seq(|ships|, k requires 0 <= k < |ships| reads ships => ships[k].rect)
  }

  /** The ships' health, in order. */
  function Healths(ships: seq<Spaceship>): (r: seq<int>)
    reads ships
    ensures |r| == |ships| && forall k :: 0 <= k < |ships| ==> r[k] == ships[k].healthRemaining
  {
    seq(|ships|, k requires 0 <= k < |ships| reads ships => ships[k].healthRemaining)
  }

  /** The ships' last shot times, in order. */
  function Shots(ships: seq<Spaceship>): (r: seq<int>)
    reads ships
    ensures |r| == |ships| && forall k :: 0 <= k < |ships| ==> r[k] == ships[k].lastShot
  {
    seq(|ships|, k requires 0 <= k < |ships| reads ships => ships[k].lastShot)
  }

  /** The boxes of the alien bullets `bullets`, in order. */
  function Drops(bullets: seq<AlienBullet>): (r: seq<Rect>)
    reads bullets
    ensures |r| == |bullets| && forall k :: 0 <= k < |bullets| ==> r[k] == bullets[k].rect
  {
    seq(|bullets|, k requires 0 <= k < |bullets| reads bullets => bullets[k].rect)
  }

  /** The drift states of `aliens`, in order. */
  function Drifts(aliens: seq<Alien>): (r: seq<Drift>)
    reads aliens
    ensures |r| == |aliens| && forall k :: 0 <= k < |aliens| ==> r[k] == aliens[k].State()
  {
    seq(|aliens|, k requires 0 <= k < |aliens| reads aliens => aliens[k].State())
  }

  /** Which of `aliens` satisfy their invariant, in order. */
  ghost function Sound(aliens: seq<Alien>): (r: seq<bool>)
    reads aliens
    ensures |r| == |aliens| && forall k :: 0 <= k < |aliens| ==> r[k] == aliens[k].Valid()
  {
    seq(|aliens|, k requires 0 <= k < |aliens| reads aliens => aliens[k].Valid())
  }

  /** The alien bullets' fall on values, once the first `i` bullets of
      `falling` have had their turn: `drops` are their boxes one step down,
      `ships` the ships' boxes, `struck` flags the bullets that hit a ship,
      `gone` the bullets that left, and `bullets` is what is left of the
      group. */
  ghost predicate Rain(falling: seq<AlienBullet>, drops: seq<Rect>, ships: seq<Rect>, maskHit: (Rect, Rect) -> bool,
                       i: nat, struck: seq<bool>, gone: seq<bool>, bullets: seq<AlienBullet>)
  {
    && Distinct(falling) && i <= |falling| == |drops| && |struck| == i && |gone| == i
    && bullets == Kept(falling[..i], gone) + falling[i..]
    && (forall k :: 0 <= k < i ==> struck[k] == HitsShip(drops[k], ships, maskHit))
    && (forall k :: 0 <= k < i ==> gone[k] == (struck[k] || drops[k].Top() > SCREEN_HEIGHT))
  }

  /** Before any alien bullet has fallen, the group is whole. */
  lemma RainStart(falling: seq<AlienBullet>, drops: seq<Rect>, ships: seq<Rect>, maskHit: (Rect, Rect) -> bool)
    requires Distinct(falling) && |falling| == |drops|
    ensures Rain(falling, drops, ships, maskHit, 0, [], [], falling)
  {
    assert falling[..0] == [] && falling[0..] == falling;
  }

  /** Alien bullet `i` takes its turn: it strikes when its box meets a ship's
      mask, and leaves when it struck or is past the bottom. */
  lemma RainOn(falling: seq<AlienBullet>, drops: seq<Rect>, ships: seq<Rect>, maskHit: (Rect, Rect) -> bool,
               i: nat, struck: seq<bool>, gone: seq<bool>, bullets: seq<AlienBullet>)
    requires Rain(falling, drops, ships, maskHit, i, struck, gone, bullets) && i < |falling|
    ensures var hit := HitsShip(drops[i], ships, maskHit);
            var g := hit || drops[i].Top() > SCREEN_HEIGHT;
            Rain(falling, drops, ships, maskHit, i + 1, struck + [hit], gone + [g],
                 if g then Without(bullets, falling[i]) else bullets)
  {
    var hit := HitsShip(drops[i], ships, maskHit);
    var g := hit || drops[i].Top() > SCREEN_HEIGHT;
    KeptStep(falling, gone, i, g);
    var struck', gone' := struck + [hit], gone + [g];
    assert forall k :: 0 <= k < i ==> struck'[k] == struck[k] && gone'[k] == gone[k];
  }

  /** Once every alien bullet has had its turn, a bullet stays exactly when
      it neither struck nor fell past the bottom. */
  lemma StaysUnlessFallen(falling: seq<AlienBullet>, drops: seq<Rect>, ships: seq<Rect>, maskHit: (Rect, Rect) -> bool,
                          struck: seq<bool>, gone: seq<bool>, bullets: seq<AlienBullet>)
    requires Rain(falling, drops, ships, maskHit, |falling|, struck, gone, bullets)
    requires forall k :: 0 <= k < |falling| ==> falling[k].rect == drops[k]
    ensures forall b :: b in bullets ==> b in falling
    ensures forall k :: 0 <= k < |falling| ==> (falling[k] in bullets <==> !struck[k] && falling[k].rect.Top() <= SCREEN_HEIGHT)
  {
    assert falling[..|falling|] == falling && falling[|falling|..] == [];
    KeptMembers(falling, gone);
  }

  // ------------------------------------------------------------------
  // Alien formation
  // ------------------------------------------------------------------

  /** The centre of the k-th alien `create_aliens` places: rows top to bottom,
      each row left to right. */
  function SpawnPoint(k: int): (int, int) {
    (100 + (k % COLS) * 100, 100 + (k / COLS) * 70)
  }

  /** The ROWS*COLS spawn points are pairwise different, 100 px apart within a
      row and 70 px apart between rows, and all on screen. */
  lemma SpawnGrid(j: int, k: int)
    requires 0 <= j < ROWS * COLS && 0 <= k < ROWS * COLS
    ensures j != k ==> SpawnPoint(j) != SpawnPoint(k)
    ensures 100 <= SpawnPoint(k).0 <= SCREEN_WIDTH - 100 && 100 <= SpawnPoint(k).1 <= 380
    ensures j / COLS == k / COLS ==> SpawnPoint(j).1 == SpawnPoint(k).1 && SpawnPoint(j).0 - SpawnPoint(k).0 == (j - k) * 100
    ensures j % COLS == k % COLS ==> SpawnPoint(j).0 == SpawnPoint(k).0 && SpawnPoint(j).1 - SpawnPoint(k).1 == (j / COLS - k / COLS) * 70
  {
  }

  /** The nested loops of `create_aliens` visit (row, col) as the
      (row * COLS + col)-th alien. */
  lemma GridIndex(row: int, col: int)
    requires 0 <= row && 0 <= col < COLS
    ensures SpawnPoint(row * COLS + col) == (100 + col * 100, 100 + row * 70)
    ensures (row * COLS + col) / COLS == row && (row * COLS + col) % COLS == col
  {
  }

  /** However many frames pass, every alien of the formation keeps its centre
      strictly inside the screen horizontally: it spawns at least 100 px from an
      edge and never drifts more than ALIEN_MOVE_DISTANCE+1 from its spawn. */
  lemma FormationStaysOnScreen(k: int, size: Size, n: nat)
    requires 0 <= k < ROWS * COLS
    ensures var r := Centered(SpawnPoint(k).0, SpawnPoint(k).1, size);
            var x := DriftAfter(r.x, n).x;
            0 < x + size.w / 2 < SCREEN_WIDTH
  {
    var r := Centered(SpawnPoint(k).0, SpawnPoint(k).1, size);
    DriftBounded(r.x, n);
    SpawnGrid(k, k);
  }

  // ------------------------------------------------------------------
  // The manager
  // ------------------------------------------------------------------

  class GameManager {
    var gameState: GameState
    var gameOver: int
    var countdown: int
    var lastCount: int
    var lastAlienShot: int
    var score: int
    var playerName: string

    var spaceshipGroup: seq<Spaceship>
    var bulletGroup: seq<Bullet>
    var alienGroup: seq<Alien>
    var alienBulletGroup: seq<AlienBullet>
    var explosionGroup: seq<Explosion>
    var spaceship: Spaceship?

    /** Image sizes: ship, player bullet, alien bullet. */
    const shipSize: Size
    const bulletSize: Size
    const alienBulletSize: Size

    /** Every group holds each sprite at most once, as a pygame Group does. */
    ghost predicate GroupsDistinct()
      reads this`spaceshipGroup, this`bulletGroup, this`alienGroup, this`alienBulletGroup, this`explosionGroup
    {
      && Distinct(spaceshipGroup) && Distinct(bulletGroup) && Distinct(alienGroup)
      && Distinct(alienBulletGroup) && Distinct(explosionGroup)
    }

    /** Every alien and every explosion is in a state its update can reach. */
    ghost predicate SpritesValid()
      reads this`alienGroup, this`explosionGroup, alienGroup, explosionGroup
    {
      && (forall a :: a in alienGroup ==> a.Valid())
      && (forall e :: e in explosionGroup ==> e.Valid())
    }

    ghost predicate Valid()
      reads this, alienGroup, explosionGroup
    {
      && gameOver == OutcomeCode(gameState)
      && 0 <= countdown <= COUNTDOWN_TIME
      && |alienBulletGroup| <= MAX_ALIEN_BULLETS
      && GroupsDistinct()
      && (gameState == Playing ==> spaceship != null && spaceshipGroup == [spaceship])
      && (|alienGroup| > 0 ==> spaceship != null)
      && SpritesValid()
      && 0 <= score && score + POINTS_PER_HIT * |alienGroup| <= POINTS_PER_HIT * ROWS * COLS
    }

    constructor (now: int, shipSize: Size, bulletSize: Size, alienBulletSize: Size)
      ensures Valid()
      ensures gameState == Menu && gameOver == 0 && score == 0 && playerName == ""
      ensures countdown == COUNTDOWN_TIME && lastCount == now && lastAlienShot == now
      ensures spaceshipGroup == [] && bulletGroup == [] && alienGroup == []
      ensures alienBulletGroup == [] && explosionGroup == [] && spaceship == null
      ensures this.shipSize == shipSize && this.bulletSize == bulletSize
      ensures this.alienBulletSize == alienBulletSize
    {
      gameState := Menu;
      gameOver := 0;
      countdown := COUNTDOWN_TIME;
      lastCount := now;
      lastAlienShot := now;
      score := 0;
      playerName := "";
      spaceshipGroup, bulletGroup, alienGroup, alienBulletGroup, explosionGroup := [], [], [], [], [];
      spaceship := null;
      this.shipSize := shipSize;
      this.bulletSize := bulletSize;
      this.alienBulletSize := alienBulletSize;
    }

    /** `a` is a new alien, as `create_aliens` makes its k-th one. */
    ghost predicate SpawnedAt(a: Alien, k: int, alienSize: (int, int) -> Size)
      reads a
    {
      && a.Valid() && a.moveCounter == 0 && a.moveDirection == ALIEN_MOVE_SPEED
      && a.rect == Centered(SpawnPoint(k).0, SpawnPoint(k).1, alienSize(k / COLS, k % COLS))
    }

    /** Appends the ROWS x COLS formation; `alienSize(row, col)` is the size of
        the image that alien picked. */
    method CreateAliens(alienSize: (int, int) -> Size)
      requires Distinct(alienGroup)
      modifies this`alienGroup
      ensures |alienGroup| == |old(alienGroup)| + ROWS * COLS
      ensures alienGroup[..|old(alienGroup)|] == old(alienGroup)
      ensures Distinct(alienGroup)
      ensures var added := alienGroup[|old(alienGroup)|..];
              forall k :: 0 <= k < |added| ==> fresh(added[k]) && SpawnedAt(added[k], k, alienSize)
    {
      ghost var added: seq<Alien> := [];
      for row := 0 to ROWS
        invariant alienGroup == old(alienGroup) + added
        invariant |added| == row * COLS
        invariant Distinct(alienGroup)
        invariant forall k :: 0 <= k < |added| ==> fresh(added[k]) && SpawnedAt(added[k], k, alienSize)
      {
        for col := 0 to COLS
          invariant alienGroup == old(alienGroup) + added
          invariant |added| == row * COLS + col
          invariant Distinct(alienGroup)
          invariant forall k :: 0 <= k < |added| ==> fresh(added[k]) && SpawnedAt(added[k], k, alienSize)
        {
          var alien := new Alien(100 + col * 100, 100 + row * 70, alienSize(row, col));
          GridIndex(row, col);
          assert SpawnedAt(alien, |added|, alienSize);
          alienGroup := Added(alienGroup, alien);
          added := added + [alien];
        }
      }
      assert alienGroup[|old(alienGroup)|..] == added;
    }

    /** A full-health ship at the bottom centre, added to its group. */
    method CreateSpaceship(now: int)
      modifies this`spaceship, this`spaceshipGroup
      ensures fresh(spaceship)
      ensures spaceship.rect == Centered(SCREEN_WIDTH / 2, SCREEN_HEIGHT - 100, shipSize)
      ensures spaceship.healthStart == PLAYER_HEALTH && spaceship.healthRemaining == PLAYER_HEALTH
      ensures spaceship.lastShot == now
      ensures spaceshipGroup == old(spaceshipGroup) + [spaceship]
    {
      var ship := new Spaceship(SCREEN_WIDTH / 2, SCREEN_HEIGHT - 100, PLAYER_HEALTH, shipSize, now);
      spaceship := ship;
      spaceshipGroup := Added(spaceshipGroup, ship);
    }

    /** The part `start_new_game` and `reset_game` share: outcome 0, a full
        countdown started at `now`, the alien cooldown restarted, every group
        emptied. */
    method ClearRound(now: int)
      modifies this`gameOver, this`countdown, this`lastCount, this`lastAlienShot
      modifies this`spaceshipGroup, this`bulletGroup, this`alienGroup, this`alienBulletGroup, this`explosionGroup
      ensures gameOver == 0 && countdown == COUNTDOWN_TIME && lastCount == now && lastAlienShot == now
      ensures spaceshipGroup == [] && bulletGroup == [] && alienGroup == []
      ensures alienBulletGroup == [] && explosionGroup == []
      ensures GroupsDistinct() && SpritesValid()
    {
      gameOver := 0;
      countdown := COUNTDOWN_TIME;
      lastCount := now;
      lastAlienShot := now;
      spaceshipGroup, bulletGroup, alienGroup, alienBulletGroup, explosionGroup := [], [], [], [], [];
    }

    /** `start_new_game`: fresh score, countdown and formation, one new ship. */
    method StartNewGame(name: string, now: int, alienSize: (int, int) -> Size)
      modifies this
      ensures Valid()
      ensures gameState == Playing && gameOver == 0 && score == 0 && playerName == name
      ensures countdown == COUNTDOWN_TIME && lastCount == now && lastAlienShot == now
      ensures bulletGroup == [] && alienBulletGroup == [] && explosionGroup == []
      ensures fresh(spaceship) && spaceshipGroup == [spaceship]
      ensures spaceship.rect == Centered(SCREEN_WIDTH / 2, SCREEN_HEIGHT - 100, shipSize)
      ensures spaceship.healthRemaining == PLAYER_HEALTH && spaceship.healthStart == PLAYER_HEALTH
      ensures |alienGroup| == ROWS * COLS
      ensures forall k :: 0 <= k < |alienGroup| ==> fresh(alienGroup[k]) && SpawnedAt(alienGroup[k], k, alienSize)
    {
      playerName := name;
      score := 0;
      ClearRound(now);
      CreateAliens(alienSize);
      assert alienGroup[0..] == alienGroup;
      CreateSpaceship(now);
      assert spaceshipGroup == [spaceship];
      gameState := Playing;
    }

    /** `update_countdown` */
    method UpdateCountdown(now: int)
      modifies this`countdown, this`lastCount
      ensures Countdown(countdown, lastCount) == CountdownTick(old(Countdown(countdown, lastCount)), now)
    {
      if countdown > 0 {
        if now - lastCount > 1000 {
          countdown := countdown - 1;
          lastCount := now;
        }
      }
    }

    /** `update_alien_shooting`: one bullet from the bottom centre of an
        arbitrary alien (the source picks it at random). */
    method UpdateAlienShooting(now: int)
      requires Distinct(alienBulletGroup)
      modifies this`alienBulletGroup, this`lastAlienShot
      ensures Distinct(alienBulletGroup)
      ensures AlienMayShoot(now, old(lastAlienShot), old(|alienBulletGroup|), |alienGroup|) ==>
                && lastAlienShot == now
                && |alienBulletGroup| == old(|alienBulletGroup|) + 1
                && alienBulletGroup[..old(|alienBulletGroup|)] == old(alienBulletGroup)
                && fresh(alienBulletGroup[old(|alienBulletGroup|)])
                && exists a :: a in alienGroup && alienBulletGroup[old(|alienBulletGroup|)].rect ==
                                                  Centered(a.rect.CenterX(), a.rect.Bottom(), alienBulletSize)
      ensures !AlienMayShoot(now, old(lastAlienShot), old(|alienBulletGroup|), |alienGroup|) ==>
                lastAlienShot == old(lastAlienShot) && alienBulletGroup == old(alienBulletGroup)
    {
      if now - lastAlienShot > ALIEN_COOLDOWN && |alienBulletGroup| < MAX_ALIEN_BULLETS && |alienGroup| > 0 {
        assert alienGroup[0] in alienGroup;
        var attacker :| attacker in alienGroup;
        var bullet := new AlienBullet(attacker.rect.CenterX(), attacker.rect.Bottom(), alienBulletSize);
        alienBulletGroup := Added(alienBulletGroup, bullet);
        lastAlienShot := now;
      }
    }

    /** `add_score` */
    method AddScore(points: int)
      modifies this`score
      ensures score == old(score) + points
    {
      score := score + points;
    }

    /** `handle_bullet_collision`, without the sound. */
    method HandleBulletCollision()
      modifies this`score
      ensures score == old(score) + POINTS_PER_HIT
    {
      AddScore(POINTS_PER_HIT);
    }

    /** One bullet's update within `bullet_group.update(...)`, with the score
        its collision callback adds; `at` records the aliens' boxes, which
        the bullet's update does not move. */
    method StepBullet(b: Bullet, ghost at: map<Alien, Rect>) returns (ghost hit: bool)
      requires Distinct(bulletGroup) && Distinct(alienGroup) && Distinct(explosionGroup)
      requires forall e :: e in explosionGroup ==> e.Valid()
      requires forall a :: a in alienGroup ==> a in at && at[a] == a.rect
      modifies this`bulletGroup, this`alienGroup, this`explosionGroup, this`score, b
      ensures Distinct(bulletGroup) && Distinct(alienGroup) && Distinct(explosionGroup)
      ensures b.rect == old(b.rect).MovedY(-PLAYER_BULLET_SPEED)
      ensures hit <==> exists a :: a in old(alienGroup) && b.rect.Collides(a.rect)
      ensures alienGroup == Untouched(b.rect, old(alienGroup))
      ensures hit <==> exists a :: a in old(alienGroup) && b.rect.Collides(at[a])
      ensures alienGroup == Clear(b.rect, old(alienGroup), at)
      ensures bulletGroup == if hit || b.rect.Bottom() < 0 then Without(old(bulletGroup), b) else old(bulletGroup)
      ensures score == old(score) + (if hit then POINTS_PER_HIT else 0)
      ensures hit ==>
                && |explosionGroup| == |old(explosionGroup)| + 1
                && explosionGroup[..|old(explosionGroup)|] == old(explosionGroup)
                && explosionGroup[|old(explosionGroup)|].Starts(b.rect.CenterX(), b.rect.CenterY(), 2)
      ensures !hit ==> explosionGroup == old(explosionGroup)
      ensures forall e :: e in old(explosionGroup) ==> e in explosionGroup
      ensures forall e :: e in explosionGroup ==> (e in old(explosionGroup) || fresh(e)) && e.Valid()
    {
      var aliens', explosions', home', struck := b.Update(alienGroup, explosionGroup, bulletGroup);
      label moved:
      UntouchedIsClear(b.rect, alienGroup, at);
      if struck {
        HandleBulletCollision();
      }
      alienGroup, explosionGroup, bulletGroup := aliens', explosions', home';
      hit := struck;
      UntouchedFramed@moved(b.rect, old(alienGroup));
    }

    /** What holds once the first `i` bullets of `flying` have had their
        turn, over the snapshot `at` of the aliens' boxes and the bullets'
        moved boxes `boxes`: `leave` flags the bullets that went, `hitters`
        are those that struck, `score0` and `explosions0` are the score and
        the explosions from before the volley. */
    ghost predicate Flown(aliens: seq<Alien>, at: map<Alien, Rect>, flying: seq<Bullet>, boxes: seq<Rect>, i: nat,
                          leave: seq<bool>, hitters: seq<Bullet>, score0: int, explosions0: seq<Explosion>)
      reads this, explosionGroup
    {
      && Volley(aliens, at, flying, boxes, i, leave, hitters, bulletGroup, alienGroup)
      && Distinct(bulletGroup) && Distinct(alienGroup) && Distinct(explosionGroup)
      && score == score0 + POINTS_PER_HIT * |hitters|
      && (forall e :: e in explosions0 ==> e in explosionGroup)
      && (forall e :: e in explosionGroup ==> e.Valid())
    }

    /** `at` records where every alien of `aliens` is. */
    ghost predicate Snapshot(aliens: seq<Alien>, at: map<Alien, Rect>)
      reads set a | a in aliens
    {
      forall a :: a in aliens ==> a in at && a.rect == at[a]
    }

    /** The moves of one turn of bullet `i`. */
    method FlyStep(ghost aliens: seq<Alien>, ghost at: map<Alien, Rect>, flying: seq<Bullet>, ghost boxes: seq<Rect>, i: nat,
                  ghost leave: seq<bool>, ghost hitters: seq<Bullet>, ghost score0: int, ghost explosions0: seq<Explosion>)
      returns (ghost leave': seq<bool>, ghost hitters': seq<Bullet>)
      requires i < |flying|
      requires Flown(aliens, at, flying, boxes, i, leave, hitters, score0, explosions0)
      requires Snapshot(aliens, at)
      requires boxes[i] == flying[i].rect.MovedY(-PLAYER_BULLET_SPEED)
      modifies this`bulletGroup, this`alienGroup, this`explosionGroup, this`score, flying[i]
      ensures Flown(aliens, at, flying, boxes, i + 1, leave', hitters', score0, explosions0)
      ensures flying[i].rect == boxes[i]
      ensures forall k :: 0 <= k < |flying| && k != i ==> flying[k].rect == old(flying[k].rect)
      ensures forall e :: e in explosionGroup ==> e in old(explosionGroup) || fresh(e)
    {
      var b := flying[i];
      DistinctAt(flying, i);
      ghost var left, bullets := alienGroup, bulletGroup;
      var hit := StepBullet(b, at);
      VolleyOn(aliens, at, flying, boxes, i, leave, hitters, bullets, left, hit);
      leave' := leave + [hit || b.rect.Bottom() < 0];
      hitters' := hitters + if hit then [b] else [];
    }

    /** Bullet `i` of `flying` takes its turn, the first `i` having had theirs. */
    method FlyOne(ghost aliens: seq<Alien>, ghost at: map<Alien, Rect>, flying: seq<Bullet>, ghost boxes: seq<Rect>, i: nat,
                  ghost leave: seq<bool>, ghost hitters: seq<Bullet>, ghost score0: int, ghost explosions0: seq<Explosion>)
      returns (ghost leave': seq<bool>, ghost hitters': seq<Bullet>)
      requires i < |flying|
      requires Flown(aliens, at, flying, boxes, i, leave, hitters, score0, explosions0)
      requires Snapshot(aliens, at)
      requires forall k :: 0 <= k < i ==> flying[k].rect == boxes[k]
      requires forall k :: i <= k < |flying| ==> boxes[k] == flying[k].rect.MovedY(-PLAYER_BULLET_SPEED)
      modifies this`bulletGroup, this`alienGroup, this`explosionGroup, this`score, flying[i]
      ensures Flown(aliens, at, flying, boxes, i + 1, leave', hitters', score0, explosions0)
      ensures Snapshot(aliens, at)
      ensures forall k :: 0 <= k < i + 1 ==> flying[k].rect == boxes[k]
      ensures forall k :: i + 1 <= k < |flying| ==> boxes[k] == flying[k].rect.MovedY(-PLAYER_BULLET_SPEED)
      ensures forall e :: e in explosionGroup ==> e in old(explosionGroup) || fresh(e)
    {
      leave', hitters' := FlyStep(aliens, at, flying, boxes, i, leave, hitters, score0, explosions0);
    }

    /** The loop of `bullet_group.update(...)`: every bullet flies once, in
        group order. `hitters` are the bullets that struck, in order; each
        scores once, however many aliens it took with it; `leave` flags the
        bullets that went, by their place in the group. */
    method FlyBullets() returns (ghost hitters: seq<Bullet>, ghost at: map<Alien, Rect>, ghost boxes: seq<Rect>, ghost leave: seq<bool>)
      requires Distinct(bulletGroup) && Distinct(alienGroup) && Distinct(explosionGroup)
      requires forall e :: e in explosionGroup ==> e.Valid()
      modifies this`bulletGroup, this`alienGroup, this`explosionGroup, this`score, bulletGroup
      ensures |boxes| == |old(bulletGroup)|
      ensures forall k :: 0 <= k < |boxes| ==> boxes[k] == old(bulletGroup[k].rect).MovedY(-PLAYER_BULLET_SPEED)
      ensures forall k :: 0 <= k < |boxes| ==> old(bulletGroup)[k].rect == boxes[k]
      ensures at == old(BoxMap(alienGroup))
      ensures Flown(old(alienGroup), at, old(bulletGroup), boxes, |boxes|, leave, hitters, old(score), old(explosionGroup))
      ensures forall e :: e in explosionGroup ==> e in old(explosionGroup) || fresh(e)
    {
      var flying := bulletGroup;
      ghost var aliens := alienGroup;
      ghost var explosions0 := explosionGroup;
      at := BoxMap(aliens);
      boxes := seq(|flying|, k requires 0 <= k < |flying| reads flying => flying[k].rect.MovedY(-PLAYER_BULLET_SPEED));
      hitters := [];
      leave := [];
      VolleyStart(aliens, at, flying, boxes);
      for i := 0 to |flying|
        invariant Flown(aliens, at, flying, boxes, i, leave, hitters, old(score), explosions0)
        invariant forall k :: 0 <= k < i ==> flying[k].rect == boxes[k]
        invariant forall k :: i <= k < |flying| ==> boxes[k] == flying[k].rect.MovedY(-PLAYER_BULLET_SPEED)
        invariant forall e :: e in explosionGroup && old(allocated(e)) ==> e in old(explosionGroup)
      {
        leave, hitters := FlyOne(aliens, at, flying, boxes, i, leave, hitters, old(score), explosions0);
      }
    }

    /** `bullet_group.update(...)` with its outcome: an alien survives exactly
        when no bullet overlaps it, a bullet stays exactly when it neither
        struck nor left the screen, and strikes and deaths match. */
    method UpdateBulletGroup() returns (ghost hitters: seq<Bullet>, ghost at: map<Alien, Rect>, ghost flown: map<Bullet, Rect>)
      requires Distinct(bulletGroup) && Distinct(alienGroup) && Distinct(explosionGroup)
      requires forall e :: e in explosionGroup ==> e.Valid()
      modifies this`bulletGroup, this`alienGroup, this`explosionGroup, this`score, bulletGroup
      ensures Distinct(bulletGroup) && Distinct(alienGroup) && Distinct(explosionGroup)
      ensures forall b :: b in old(bulletGroup) ==> b in flown && flown[b] == old(b.rect).MovedY(-PLAYER_BULLET_SPEED)
      ensures forall e :: e in old(explosionGroup) ==> e in explosionGroup
      ensures forall e :: e in explosionGroup ==> (e in old(explosionGroup) || fresh(e)) && e.Valid()
      ensures at == old(BoxMap(alienGroup))
      // `flown` holds each bullet's box after its flight.
      ensures forall b :: b in old(bulletGroup) ==> b.rect == flown[b]
      ensures VolleyDone(old(alienGroup), alienGroup, at, old(bulletGroup), bulletGroup, Raised(old(Boxes(bulletGroup))), flown,
                         hitters, old(score), score)
    {
      ghost var boxes, leave;
      hitters, at, boxes, leave := FlyBullets();
      assert boxes == Raised(old(Boxes(bulletGroup)));
      flown := map b | b in old(bulletGroup) :: b.rect;
      forall b | b in old(bulletGroup) ensures flown[b] == old(b.rect).MovedY(-PLAYER_BULLET_SPEED) {
        var k :| 0 <= k < |old(bulletGroup)| && old(bulletGroup)[k] == b;
      }
      VolleyEnds(old(alienGroup), at, old(bulletGroup), boxes, leave, hitters, bulletGroup, alienGroup, flown, old(score), score);
    }

    /** The player bullets' part of `_update_sprite_groups`, with what it
        leaves alone: the aliens, the alien bullets and the ships. */
    method PlayerTurn() returns (ghost hitters: seq<Bullet>, ghost at: map<Alien, Rect>, ghost flown: map<Bullet, Rect>)
      requires Distinct(bulletGroup) && Distinct(alienGroup) && Distinct(explosionGroup)
      requires forall e :: e in explosionGroup ==> e.Valid()
      modifies this`bulletGroup, this`alienGroup, this`explosionGroup, this`score, bulletGroup
      // Aliens, alien bullets and ships are not touched.
      ensures alienBulletGroup == old(alienBulletGroup) && spaceshipGroup == old(spaceshipGroup)
      ensures Drifts(old(alienGroup)) == old(Drifts(alienGroup)) && Sound(old(alienGroup)) == old(Sound(alienGroup))
      ensures Drops(alienBulletGroup) == old(Drops(alienBulletGroup))
      ensures ShipBoxes(spaceshipGroup) == old(ShipBoxes(spaceshipGroup))
      ensures Healths(spaceshipGroup) == old(Healths(spaceshipGroup)) && Shots(spaceshipGroup) == old(Shots(spaceshipGroup))
      ensures Distinct(bulletGroup) && Distinct(alienGroup) && Distinct(explosionGroup)
      ensures forall b :: b in old(bulletGroup) ==> b in flown && flown[b] == old(b.rect).MovedY(-PLAYER_BULLET_SPEED)
      ensures forall e :: e in old(explosionGroup) ==> e in explosionGroup
      ensures forall e :: e in explosionGroup ==> (e in old(explosionGroup) || fresh(e)) && e.Valid()
      ensures at == old(BoxMap(alienGroup))
      ensures forall b :: b in old(bulletGroup) ==> b.rect == flown[b]
      ensures VolleyDone(old(alienGroup), alienGroup, at, old(bulletGroup), bulletGroup, Raised(old(Boxes(bulletGroup))), flown,
                         hitters, old(score), score)
    {
      hitters, at, flown := UpdateBulletGroup();
    }

    /** `alien_group.update()`: every alien drifts one step. */
    method UpdateAlienGroup()
      requires Distinct(alienGroup)
      modifies alienGroup
      ensures forall a :: a in alienGroup ==> a.State() == DriftStep(old(a.State()))
      ensures forall a :: a in alienGroup ==> a.rect.y == old(a.rect.y) && a.rect.w == old(a.rect.w) && a.rect.h == old(a.rect.h)
      ensures forall a :: a in alienGroup && old(a.Valid()) ==> a.Valid()
    {
      for i := 0 to |alienGroup|
        invariant forall k :: 0 <= k < i ==> alienGroup[k].State() == DriftStep(old(alienGroup[k].State()))
        invariant forall k :: 0 <= k < i ==> alienGroup[k].rect.y == old(alienGroup[k].rect.y) && alienGroup[k].rect.w == old(alienGroup[k].rect.w) && alienGroup[k].rect.h == old(alienGroup[k].rect.h)
        invariant forall k :: 0 <= k < i && old(alienGroup[k].Valid()) ==> alienGroup[k].Valid()
        invariant forall k :: i <= k < |alienGroup| ==> alienGroup[k].rect == old(alienGroup[k].rect) && alienGroup[k].State() == old(alienGroup[k].State())
      {
        alienGroup[i].Update();
      }
    }

    /** What holds once the first `i` alien bullets of `falling` have had
        their turn, over the bullets' moved boxes `drops` and the ships'
        boxes `ships`: `struck` flags the bullets that hit, `gone` those
        that went; `health0`, `shots0` and `explosions0` are the ships'
        health and last shots and the explosions from before. */
    ghost predicate Falling(falling: seq<AlienBullet>, drops: seq<Rect>, ships: seq<Rect>, maskHit: (Rect, Rect) -> bool,
                            i: nat, struck: seq<bool>, gone: seq<bool>,
                            health0: seq<int>, shots0: seq<int>, explosions0: seq<Explosion>)
      reads this, spaceshipGroup, explosionGroup
    {
      && Rain(falling, drops, ships, maskHit, i, struck, gone, alienBulletGroup)
      && Distinct(alienBulletGroup) && Distinct(explosionGroup) && Distinct(spaceshipGroup)
      && |spaceshipGroup| == |ships| == |health0| == |shots0|
      && (forall k :: 0 <= k < |ships| ==> spaceshipGroup[k].rect == ships[k] && spaceshipGroup[k].lastShot == shots0[k])
      && (forall k :: 0 <= k < |ships| ==> spaceshipGroup[k].healthRemaining == health0[k] - Count(struck))
      && (forall e :: e in explosions0 ==> e in explosionGroup)
      && (forall e :: e in explosionGroup ==> e.Valid())
    }

    /** The moves of one turn of alien bullet `i` of `falling`, whose ships
        sit at `ships`. */
    method DropStep(falling: seq<AlienBullet>, i: nat, ghost ships: seq<Rect>, maskHit: (Rect, Rect) -> bool)
      requires i < |falling| && Distinct(falling)
      requires Distinct(alienBulletGroup) && Distinct(explosionGroup) && Distinct(spaceshipGroup)
      requires |ships| == |spaceshipGroup| && forall k :: 0 <= k < |ships| ==> spaceshipGroup[k].rect == ships[k]
      requires forall e :: e in explosionGroup ==> e.Valid()
      modifies this`alienBulletGroup, this`explosionGroup, falling[i], spaceshipGroup
      ensures spaceshipGroup == old(spaceshipGroup)
      ensures falling[i].rect == old(falling[i].rect).MovedY(ALIEN_BULLET_SPEED)
      ensures forall k :: 0 <= k < |falling| && k != i ==> falling[k].rect == old(falling[k].rect)
      ensures alienBulletGroup ==
                if HitsShip(falling[i].rect, ships, maskHit) || falling[i].rect.Top() > SCREEN_HEIGHT
                then Without(old(alienBulletGroup), falling[i]) else old(alienBulletGroup)
      ensures forall k :: 0 <= k < |ships| ==>
                && spaceshipGroup[k].rect == ships[k] && spaceshipGroup[k].lastShot == old(spaceshipGroup[k].lastShot)
                && spaceshipGroup[k].healthRemaining ==
                     old(spaceshipGroup[k].healthRemaining) - (if HitsShip(falling[i].rect, ships, maskHit) then 1 else 0)
      ensures Distinct(alienBulletGroup) && Distinct(explosionGroup)
      ensures forall e :: e in old(explosionGroup) ==> e in explosionGroup
      ensures forall e :: e in explosionGroup ==> e.Valid()
      ensures forall e :: e in explosionGroup ==> e in old(explosionGroup) || fresh(e)
    {
      var b := falling[i];
      DistinctAt(falling, i);
      var explosions', home' := b.Update(spaceshipGroup, explosionGroup, alienBulletGroup, maskHit, ships);
      explosionGroup, alienBulletGroup := explosions', home';
    }

    /** Alien bullet `i` of `falling` takes its turn, the first `i` having had theirs. */
    method DropOne(falling: seq<AlienBullet>, ghost drops: seq<Rect>, ghost ships: seq<Rect>, maskHit: (Rect, Rect) -> bool,
                   i: nat, ghost struck: seq<bool>, ghost gone: seq<bool>,
                   ghost health0: seq<int>, ghost shots0: seq<int>, ghost explosions0: seq<Explosion>,
                   crew: seq<Spaceship>)
      returns (ghost struck': seq<bool>, ghost gone': seq<bool>)
      requires i < |falling| && crew == spaceshipGroup
      requires Falling(falling, drops, ships, maskHit, i, struck, gone, health0, shots0, explosions0)
      requires forall k :: 0 <= k < i ==> falling[k].rect == drops[k]
      requires forall k :: i <= k < |falling| ==> drops[k] == falling[k].rect.MovedY(ALIEN_BULLET_SPEED)
      modifies this`alienBulletGroup, this`explosionGroup, falling[i], crew
      ensures Falling(falling, drops, ships, maskHit, i + 1, struck', gone', health0, shots0, explosions0)
      ensures forall k :: 0 <= k < i + 1 ==> falling[k].rect == drops[k]
      ensures forall k :: i + 1 <= k < |falling| ==> drops[k] == falling[k].rect.MovedY(ALIEN_BULLET_SPEED)
      ensures forall e :: e in explosionGroup ==> e in old(explosionGroup) || fresh(e)
    {
      ghost var hit := HitsShip(drops[i], ships, maskHit);
      ghost var g := hit || drops[i].Top() > SCREEN_HEIGHT;
      RainOn(falling, drops, ships, maskHit, i, struck, gone, alienBulletGroup);
      DropStep(falling, i, ships, maskHit);
      struck', gone' := struck + [hit], gone + [g];
      CountSnoc(struck, hit);
      forall k | 0 <= k < i + 1 ensures falling[k].rect == drops[k] {
        if k < i {
          assert falling[k].rect == old(falling[k].rect);
        }
      }
      assert falling[i].rect == drops[i];
      assert alienBulletGroup == if g then Without(old(alienBulletGroup), falling[i]) else old(alienBulletGroup);
      assert Rain(falling, drops, ships, maskHit, i + 1, struck', gone', alienBulletGroup);
      forall k | 0 <= k < |ships| ensures spaceshipGroup[k].healthRemaining == health0[k] - Count(struck') {
        assert old(spaceshipGroup[k].healthRemaining) == health0[k] - Count(struck);
      }
    }

    /** The loop of `alien_bullet_group.update(...)`: every alien bullet
        falls once, in group order. `struck` flags the bullets that hit a
        ship and `gone` those that went, by their place in the group;
        `ships` are the ships' boxes. */
    method DropBullets(maskHit: (Rect, Rect) -> bool)
      returns (ghost struck: seq<bool>, ghost gone: seq<bool>, ghost drops: seq<Rect>, ghost ships: seq<Rect>)
      requires Distinct(alienBulletGroup) && Distinct(spaceshipGroup) && Distinct(explosionGroup)
      requires forall e :: e in explosionGroup ==> e.Valid()
      modifies this`alienBulletGroup, this`explosionGroup, alienBulletGroup, spaceshipGroup
      ensures |drops| == |old(alienBulletGroup)|
      ensures forall k :: 0 <= k < |drops| ==> drops[k] == old(alienBulletGroup[k].rect).MovedY(ALIEN_BULLET_SPEED)
      ensures forall k :: 0 <= k < |drops| ==> old(alienBulletGroup)[k].rect == drops[k]
      ensures ships == old(ShipBoxes(spaceshipGroup))
      ensures Falling(old(alienBulletGroup), drops, ships, maskHit, |drops|, struck, gone,
                      old(Healths(spaceshipGroup)), old(Shots(spaceshipGroup)), old(explosionGroup))
      ensures forall e :: e in explosionGroup ==> e in old(explosionGroup) || fresh(e)
    {
      var falling, crew := alienBulletGroup, spaceshipGroup;
      ghost var explosions0 := explosionGroup;
      ghost var health0, shots0 := Healths(spaceshipGroup), Shots(spaceshipGroup);
      ships := ShipBoxes(spaceshipGroup);
      drops := seq(|falling|, k requires 0 <= k < |falling| reads falling => falling[k].rect.MovedY(ALIEN_BULLET_SPEED));
      RainStart(falling, drops, ships, maskHit);
      struck, gone := DropAll(falling, drops, ships, maskHit, health0, shots0, explosions0, crew);
    }

    /** The loop proper of `DropBullets`. */
    method DropAll(falling: seq<AlienBullet>, ghost drops: seq<Rect>, ghost ships: seq<Rect>, maskHit: (Rect, Rect) -> bool,
                   ghost health0: seq<int>, ghost shots0: seq<int>, ghost explosions0: seq<Explosion>,
                   crew: seq<Spaceship>)
      returns (ghost struck: seq<bool>, ghost gone: seq<bool>)
      requires crew == spaceshipGroup
      requires Falling(falling, drops, ships, maskHit, 0, [], [], health0, shots0, explosions0)
      requires forall k :: 0 <= k < |falling| ==> drops[k] == falling[k].rect.MovedY(ALIEN_BULLET_SPEED)
      modifies this`alienBulletGroup, this`explosionGroup, falling, crew
      ensures Falling(falling, drops, ships, maskHit, |falling|, struck, gone, health0, shots0, explosions0)
      ensures forall k :: 0 <= k < |falling| ==> falling[k].rect == drops[k]
      ensures forall e :: e in explosionGroup ==> e in old(explosionGroup) || fresh(e)
    {
      struck, gone := [], [];
      for i := 0 to |falling|
        invariant Falling(falling, drops, ships, maskHit, i, struck, gone, health0, shots0, explosions0)
        invariant forall k :: 0 <= k < i ==> falling[k].rect == drops[k]
        invariant forall k :: i <= k < |falling| ==> drops[k] == falling[k].rect.MovedY(ALIEN_BULLET_SPEED)
        invariant forall e :: e in explosionGroup && old(allocated(e)) ==> e in old(explosionGroup)
      {
        struck, gone := DropOne(falling, drops, ships, maskHit, i, struck, gone, health0, shots0, explosions0, crew);
      }
    }

    /** `alien_bullet_group.update(...)`: every alien bullet falls one step;
        one whose new box meets a ship's mask strikes, costing every ship in
        the group one health point, and a bullet leaves exactly when it
        struck or fell past the bottom of the screen. */
    method UpdateAlienBulletGroup(maskHit: (Rect, Rect) -> bool) returns (ghost struck: seq<bool>, ghost ships: seq<Rect>)
      requires Distinct(alienBulletGroup) && Distinct(spaceshipGroup) && Distinct(explosionGroup)
      requires forall e :: e in explosionGroup ==> e.Valid()
      modifies this`alienBulletGroup, this`explosionGroup, alienBulletGroup, spaceshipGroup
      ensures Distinct(alienBulletGroup) && Distinct(explosionGroup)
      ensures ships == old(ShipBoxes(spaceshipGroup))
      // A bullet strikes exactly when its new box meets a ship's mask, and stays
      // exactly when it neither struck nor fell past the bottom; every strike
      // costs every ship one health point, and the ships hold still.
      ensures Rained(old(alienBulletGroup), old(Drops(alienBulletGroup)), Drops(old(alienBulletGroup)), ships, maskHit, struck,
                     alienBulletGroup, old(Healths(spaceshipGroup)), Healths(spaceshipGroup),
                     old(Shots(spaceshipGroup)), Shots(spaceshipGroup), ShipBoxes(spaceshipGroup))
      ensures forall e :: e in old(explosionGroup) ==> e in explosionGroup
      ensures forall e :: e in explosionGroup ==> (e in old(explosionGroup) || fresh(e)) && e.Valid()
    {
      ghost var gone, drops;
      struck, gone, drops, ships := DropBullets(maskHit);
      StaysUnlessFallen(old(alienBulletGroup), drops, ships, maskHit, struck, gone, alienBulletGroup);
    }

    /** `explosion_group.update()`: every explosion animates once and the
        finished ones leave the group. */
    method UpdateExplosionGroup()
      requires Distinct(explosionGroup)
      modifies this`explosionGroup, explosionGroup
      ensures Distinct(explosionGroup)
      ensures forall e :: e in old(explosionGroup) ==> e.Frame() == AnimStep(old(e.Frame()))
      ensures forall e :: e in explosionGroup ==> e in old(explosionGroup) && !AnimDone(e.Frame())
      ensures forall e :: e in old(explosionGroup) && !AnimDone(e.Frame()) ==> e in explosionGroup
      ensures forall e :: e in explosionGroup && old(e.Valid()) ==> e.Valid()
    {
      var playing := explosionGroup;
      for i := 0 to |playing|
        invariant Distinct(explosionGroup) && Distinct(playing)
        invariant forall e :: e in explosionGroup ==> e in playing
        invariant forall k :: 0 <= k < |playing| ==>
                    && playing[k].Frame() == (if k < i then AnimStep(old(playing[k].Frame())) else old(playing[k].Frame()))
                    && (playing[k] in explosionGroup <==> !(k < i && AnimDone(playing[k].Frame())))
      {
        explosionGroup := playing[i].Update(explosionGroup);
      }
    }

    /** `_update_sprite_groups`: player bullets, then aliens, then alien
        bullets. `hitters` are the player bullets that struck an alien, `at`
        the aliens' boxes as the bullets met them, `flown` the bullets' boxes
        after their flight, `struck` flags the alien
        bullets that hit a ship and `ships` are the ships' boxes. */
    method UpdateSpriteGroups(maskHit: (Rect, Rect) -> bool)
      returns (ghost hitters: seq<Bullet>, ghost at: map<Alien, Rect>, ghost flown: map<Bullet, Rect>,
               ghost struck: seq<bool>, ghost ships: seq<Rect>)
      requires Distinct(bulletGroup) && Distinct(alienGroup) && Distinct(explosionGroup)
      requires Distinct(alienBulletGroup) && Distinct(spaceshipGroup)
      requires forall e :: e in explosionGroup ==> e.Valid()
      modifies this`bulletGroup, this`alienGroup, this`explosionGroup, this`score, this`alienBulletGroup
      modifies bulletGroup, alienGroup, alienBulletGroup, spaceshipGroup
      ensures Distinct(bulletGroup) && Distinct(alienGroup) && Distinct(explosionGroup) && Distinct(alienBulletGroup)
      // Alien bullets fall; each one whose new box meets a ship's mask costs every ship one health point.
      ensures ships == old(ShipBoxes(spaceshipGroup))
      ensures Rained(old(alienBulletGroup), old(Drops(alienBulletGroup)), Drops(old(alienBulletGroup)), ships, maskHit, struck,
                     alienBulletGroup, old(Healths(spaceshipGroup)), Healths(spaceshipGroup),
                     old(Shots(spaceshipGroup)), Shots(spaceshipGroup), ShipBoxes(spaceshipGroup))
      // Player bullets rise; each alien a bullet overlaps dies with it, for 10 points a bullet.
      ensures forall b :: b in old(bulletGroup) ==> b in flown && flown[b] == old(b.rect).MovedY(-PLAYER_BULLET_SPEED)
      ensures at == old(BoxMap(alienGroup))
      ensures forall b :: b in old(bulletGroup) ==> b.rect == flown[b]
      ensures VolleyDone(old(alienGroup), alienGroup, at, old(bulletGroup), bulletGroup, Raised(old(Boxes(bulletGroup))), flown,
                         hitters, old(score), score)
      // The surviving aliens drift one step.
      ensures Drifted(old(alienGroup), alienGroup, old(Drifts(alienGroup)), Drifts(old(alienGroup)),
                      old(Sound(alienGroup)), Sound(old(alienGroup)))
      ensures forall e :: e in old(explosionGroup) ==> e in explosionGroup
      ensures forall e :: e in explosionGroup ==> (e in old(explosionGroup) || fresh(e)) && e.Valid()
    {
      hitters, at, flown := PlayerTurn();
      assert forall k :: 0 <= k < |alienGroup| ==> alienGroup[k] in old(alienGroup);
      struck, ships := AlienTurn(maskHit, old(bulletGroup), old(alienGroup), old(Drifts(alienGroup)), old(Sound(alienGroup)),
                                 old(Drops(alienBulletGroup)), old(Healths(spaceshipGroup)), old(Shots(spaceshipGroup)));
    }

    /** The aliens' half of `_update_sprite_groups`: the aliens drift, then
        the alien bullets fall. The ghost parameters name what the turn starts
        from: the player bullets `bullets`, which keep their boxes; the
        formation `aliens` from before the player bullets flew, of which the
        group is what is left, with their drift states `drifts` and soundness
        `sound`; the alien bullets' boxes `drops`; the ships' `healths` and
        last `shots`. */
    method AlienTurn(maskHit: (Rect, Rect) -> bool, ghost bullets: seq<Bullet>,
                     ghost aliens: seq<Alien>, ghost drifts: seq<Drift>, ghost sound: seq<bool>,
                     ghost drops: seq<Rect>, ghost healths: seq<int>, ghost shots: seq<int>)
      returns (ghost struck: seq<bool>, ghost ships: seq<Rect>)
      requires Distinct(alienGroup) && Distinct(explosionGroup) && Distinct(alienBulletGroup) && Distinct(spaceshipGroup)
      requires forall e :: e in explosionGroup ==> e.Valid()
      requires forall k :: 0 <= k < |alienGroup| ==> alienGroup[k] in aliens
      requires drifts == Drifts(aliens) && sound == Sound(aliens)
      requires drops == Drops(alienBulletGroup) && healths == Healths(spaceshipGroup) && shots == Shots(spaceshipGroup)
      modifies this`explosionGroup, this`alienBulletGroup, alienGroup, alienBulletGroup, spaceshipGroup
      ensures bulletGroup == old(bulletGroup) && alienGroup == old(alienGroup) && score == old(score)
      ensures Distinct(explosionGroup) && Distinct(alienBulletGroup)
      ensures unchanged(bullets)
      ensures Drifted(aliens, alienGroup, drifts, Drifts(aliens), sound, Sound(aliens))
      ensures ships == old(ShipBoxes(spaceshipGroup))
      ensures Rained(old(alienBulletGroup), drops, Drops(old(alienBulletGroup)), ships, maskHit, struck, alienBulletGroup,
                     healths, Healths(spaceshipGroup), shots, Shots(spaceshipGroup), ShipBoxes(spaceshipGroup))
      ensures forall e :: e in old(explosionGroup) ==> e in explosionGroup
      ensures forall e :: e in explosionGroup ==> (e in old(explosionGroup) || fresh(e)) && e.Valid()
    {
      UpdateAlienGroup();
      assert Drops(alienBulletGroup) == drops && ShipBoxes(spaceshipGroup) == old(ShipBoxes(spaceshipGroup));
      assert Healths(spaceshipGroup) == healths && Shots(spaceshipGroup) == shots;
      struck, ships := UpdateAlienBulletGroup(maskHit);
    }

    /** The sprite groups' update as the rest of the tick sees it: every old
        player bullet rose one step, the score grew by at most the points of the
        aliens that died, the survivors drifted one step and stay valid, and
        alien bullets were only removed. */
    method SpriteTurn(maskHit: (Rect, Rect) -> bool)
      requires Distinct(bulletGroup) && Distinct(alienGroup) && Distinct(explosionGroup)
      requires Distinct(alienBulletGroup) && Distinct(spaceshipGroup)
      requires forall e :: e in explosionGroup ==> e.Valid()
      modifies this`bulletGroup, this`alienGroup, this`explosionGroup, this`score, this`alienBulletGroup
      modifies bulletGroup, alienGroup, alienBulletGroup, spaceshipGroup
      ensures Distinct(bulletGroup) && Distinct(alienGroup) && Distinct(explosionGroup) && Distinct(alienBulletGroup)
      ensures forall b :: b in old(bulletGroup) ==> b.rect == old(b.rect).MovedY(-PLAYER_BULLET_SPEED)
      ensures old(score) <= score && score + POINTS_PER_HIT * |alienGroup| <= old(score) + POINTS_PER_HIT * |old(alienGroup)|
      ensures forall a :: a in alienGroup ==> a in old(alienGroup)
      ensures forall a :: a in alienGroup ==> a.State() == DriftStep(old(a.State())) && (old(a.Valid()) ==> a.Valid())
      ensures |alienBulletGroup| <= |old(alienBulletGroup)|
      ensures forall s :: s in spaceshipGroup ==> s.rect == old(s.rect) && s.lastShot == old(s.lastShot)
      ensures forall e :: e in old(explosionGroup) ==> e in explosionGroup
      ensures forall e :: e in explosionGroup ==> (e in old(explosionGroup) || fresh(e)) && e.Valid()
    {
      var hitters, at, flown, struck, ships := UpdateSpriteGroups(maskHit);
      forall s | s in spaceshipGroup
        ensures s.rect == old(s.rect) && s.lastShot == old(s.lastShot)
      {
        var k :| 0 <= k < |spaceshipGroup| && spaceshipGroup[k] == s;
      }
      VolleyScore(old(alienGroup), alienGroup, at, flown, hitters, old(score), score);
      forall a | a in alienGroup
        ensures a in old(alienGroup) && a.State() == DriftStep(old(a.State())) && (old(a.Valid()) ==> a.Valid())
      {
        var k :| 0 <= k < |old(alienGroup)| && old(alienGroup)[k] == a;
      }
    }

    /** The ship's own update inside `update_game_logic`: it moves, may fire,
        and when out of health leaves its group; the returned code becomes
        `game_over`, and -1 switches the game to GAME_OVER. */
    method ShipTick(now: int, keys: Keys)
      requires spaceship != null
      requires Distinct(bulletGroup) && Distinct(explosionGroup) && Distinct(spaceshipGroup)
      modifies spaceship, this`bulletGroup, this`explosionGroup, this`spaceshipGroup, this`gameOver, this`gameState
      ensures Distinct(bulletGroup) && Distinct(explosionGroup) && Distinct(spaceshipGroup)
      ensures spaceship.healthRemaining == old(spaceship.healthRemaining)
      // The ship moves with the arrow keys and fires when the cooldown allows.
      ensures spaceship.rect == old(spaceship.rect).(x := ShipX(old(spaceship.rect.x), old(spaceship.rect.w), keys))
      ensures ShotReady(now, old(spaceship.lastShot), keys) ==>
                && spaceship.lastShot == now
                && |bulletGroup| == |old(bulletGroup)| + 1 && bulletGroup[..|old(bulletGroup)|] == old(bulletGroup)
                && fresh(bulletGroup[|old(bulletGroup)|])
                && bulletGroup[|old(bulletGroup)|].rect == Centered(spaceship.rect.CenterX(), spaceship.rect.Top(), bulletSize)
      ensures !ShotReady(now, old(spaceship.lastShot), keys) ==>
                spaceship.lastShot == old(spaceship.lastShot) && bulletGroup == old(bulletGroup)
      // Out of health, it leaves its group in an explosion.
      ensures gameOver == -1 ==>
                && spaceshipGroup == Without<Spaceship>(old(spaceshipGroup), spaceship)
                && |explosionGroup| == |old(explosionGroup)| + 1 && explosionGroup[..|old(explosionGroup)|] == old(explosionGroup)
                && explosionGroup[|old(explosionGroup)|].Starts(spaceship.rect.CenterX(), spaceship.rect.CenterY(), 3)
      ensures gameOver == (if spaceship.healthRemaining <= 0 then -1 else 0)
      ensures gameState == (if gameOver == -1 then GameOver else old(gameState))
      ensures gameOver == 0 ==> spaceshipGroup == old(spaceshipGroup)
      ensures forall s :: s in spaceshipGroup ==> s in old(spaceshipGroup)
      ensures forall b :: b in bulletGroup ==> b in old(bulletGroup) || fresh(b)
      ensures forall b :: b in old(bulletGroup) ==> b in bulletGroup
      ensures forall e :: e in old(explosionGroup) ==> e in explosionGroup
      ensures forall e :: e in explosionGroup ==> e in old(explosionGroup) || (fresh(e) && e.Valid())
    {
      var status, bullets', explosions', ships' :=
        spaceship.Update(now, keys, bulletSize, bulletGroup, explosionGroup, spaceshipGroup);
      bulletGroup, explosionGroup, spaceshipGroup := bullets', explosions', ships';
      gameOver := status;
      if gameOver == -1 {
        gameState := GameOver;
      }
    }

    /** The game still on: the ship, then the sprite groups. `shot` is the
        bullet the ship fired, if it fired; it flies with the others. */
    method Fight(now: int, keys: Keys, maskHit: (Rect, Rect) -> bool) returns (ghost shot: Bullet?)
      requires Valid() && gameOver == 0 && alienGroup != []
      modifies this`gameOver, this`gameState, this`bulletGroup, this`explosionGroup, this`spaceshipGroup
      modifies this`alienGroup, this`score, this`alienBulletGroup
      modifies spaceship, bulletGroup, alienGroup, alienBulletGroup, spaceshipGroup
      ensures Valid()
      ensures gameState == GameOver <==> old(spaceship.healthRemaining) <= 0
      ensures forall b :: b in old(bulletGroup) ==> b.rect == old(b.rect).MovedY(-PLAYER_BULLET_SPEED)
      ensures forall a :: a in old(alienGroup) && a in alienGroup ==> a.State() == DriftStep(old(a.State()))
      ensures spaceship.rect == old(spaceship.rect).(x := ShipX(old(spaceship.rect.x), old(spaceship.rect.w), keys))
      ensures spaceship.lastShot == if ShotReady(now, old(spaceship.lastShot), keys) then now else old(spaceship.lastShot)
      ensures ShotReady(now, old(spaceship.lastShot), keys) ==>
                && shot != null && fresh(shot)
                && shot.rect == Centered(spaceship.rect.CenterX(), spaceship.rect.Top(), bulletSize).MovedY(-PLAYER_BULLET_SPEED)
      ensures forall e :: e in old(explosionGroup) ==> e in explosionGroup
      ensures forall e :: e in explosionGroup ==> e in old(explosionGroup) || fresh(e)
    {
      ShipTick(now, keys);
      shot := null;
      if ShotReady(now, old(spaceship.lastShot), keys) {
        shot := bulletGroup[|old(bulletGroup)|];
      }
      assert forall k :: 0 <= k < |bulletGroup| ==> bulletGroup[k] in old(bulletGroup) || fresh(bulletGroup[k]);
      assert forall k :: 0 <= k < |spaceshipGroup| ==> spaceshipGroup[k] in old(spaceshipGroup);
      SpriteTurn(maskHit);
    }

    /** The branch of `update_game_logic` taken once the countdown is over:
        a possible alien volley, the victory check, and while the game is
        still on, the ship and the sprite groups. */
    method PlayTick(now: int, keys: Keys, maskHit: (Rect, Rect) -> bool) returns (ghost shot: Bullet?)
      requires Valid() && countdown == 0
      modifies this`alienBulletGroup, this`lastAlienShot, this`gameOver, this`gameState
      modifies this`bulletGroup, this`explosionGroup, this`spaceshipGroup, this`alienGroup, this`score
      modifies spaceship, bulletGroup, alienGroup, alienBulletGroup, spaceshipGroup
      ensures Valid()
      ensures old(alienGroup) == [] ==>
                && gameState == Victory && score == old(score) && alienGroup == []
                && bulletGroup == old(bulletGroup) && alienBulletGroup == old(alienBulletGroup)
                && spaceshipGroup == old(spaceshipGroup) && lastAlienShot == old(lastAlienShot)
                && (forall b :: b in bulletGroup ==> b.rect == old(b.rect))
                && (forall b :: b in alienBulletGroup ==> b.rect == old(b.rect))
                && (spaceship != null ==> && spaceship.rect == old(spaceship.rect)
                                          && spaceship.healthRemaining == old(spaceship.healthRemaining)
                                          && spaceship.lastShot == old(spaceship.lastShot))
      ensures old(alienGroup) != [] && old(gameOver) == 0 ==>
                && (gameState == GameOver <==> old(spaceship.healthRemaining) <= 0)
                && (forall b :: b in old(bulletGroup) ==> b.rect == old(b.rect).MovedY(-PLAYER_BULLET_SPEED))
                && (forall a :: a in old(alienGroup) && a in alienGroup ==> a.State() == DriftStep(old(a.State())))
                && spaceship.rect == old(spaceship.rect).(x := ShipX(old(spaceship.rect.x), old(spaceship.rect.w), keys))
                && spaceship.lastShot == (if ShotReady(now, old(spaceship.lastShot), keys) then now else old(spaceship.lastShot))
                && (ShotReady(now, old(spaceship.lastShot), keys) ==>
                      && shot != null && fresh(shot)
                      && shot.rect == Centered(spaceship.rect.CenterX(), spaceship.rect.Top(), bulletSize).MovedY(-PLAYER_BULLET_SPEED))
      ensures old(gameOver) != 0 ==> gameState == old(gameState) || gameState == Victory
      // The alien volley opens the branch.
      ensures lastAlienShot ==
                if AlienMayShoot(now, old(lastAlienShot), |old(alienBulletGroup)|, |old(alienGroup)|) then now else old(lastAlienShot)
      ensures forall e :: e in old(explosionGroup) ==> e in explosionGroup
      ensures forall e :: e in explosionGroup ==> e in old(explosionGroup) || fresh(e)
    {
      shot := null;
      UpdateAlienShooting(now);
      if |alienGroup| == 0 {
        gameOver := 1;
        gameState := Victory;
      }
      if gameOver == 0 {
        shot := Fight(now, keys, maskHit);
      }
    }

    /** The tail of `update_game_logic` that runs on every tick: the countdown,
        then the explosions. */
    method EveryTick(now: int)
      requires Valid()
      modifies this`countdown, this`lastCount, this`explosionGroup, explosionGroup
      ensures Valid()
      ensures Countdown(countdown, lastCount) == CountdownTick(old(Countdown(countdown, lastCount)), now)
      ensures forall e :: e in old(explosionGroup) ==> e.Frame() == AnimStep(old(e.Frame()))
      ensures forall e :: e in old(explosionGroup) ==> (e in explosionGroup <==> !AnimDone(e.Frame()))
      ensures forall e :: e in explosionGroup ==> e in old(explosionGroup)
    {
      UpdateCountdown(now);
      UpdateExplosionGroup();
    }

    /** `update_game_logic`: one tick at clock reading `now` with `keys` held.
        Play runs only once the countdown is over; the countdown and the
        explosions then advance on every tick. Returns the `game_over` code. */
    method UpdateGameLogic(now: int, keys: Keys, maskHit: (Rect, Rect) -> bool) returns (result: int, ghost shot: Bullet?)
      requires Valid()
      modifies this, spaceship, spaceshipGroup, bulletGroup, alienGroup, alienBulletGroup, explosionGroup
      ensures Valid()
      ensures result == gameOver
      ensures playerName == old(playerName) && spaceship == old(spaceship)
      ensures Countdown(countdown, lastCount) == CountdownTick(old(Countdown(countdown, lastCount)), now)
      // Before the countdown ends nothing but the countdown and the explosions moves.
      ensures old(countdown) > 0 ==>
                && gameState == old(gameState) && score == old(score) && lastAlienShot == old(lastAlienShot)
                && spaceshipGroup == old(spaceshipGroup) && bulletGroup == old(bulletGroup)
                && alienGroup == old(alienGroup) && alienBulletGroup == old(alienBulletGroup)
                && (forall a :: a in alienGroup ==> a.rect == old(a.rect) && a.State() == old(a.State()))
                && (forall b :: b in bulletGroup ==> b.rect == old(b.rect))
                && (forall b :: b in alienBulletGroup ==> b.rect == old(b.rect))
                && (spaceship != null ==> && spaceship.rect == old(spaceship.rect)
                                          && spaceship.healthRemaining == old(spaceship.healthRemaining)
                                          && spaceship.lastShot == old(spaceship.lastShot))
      // With no aliens left the game is won and no sprite moves.
      ensures old(countdown) == 0 && old(alienGroup) == [] ==>
                && gameState == Victory && score == old(score) && alienGroup == []
                && bulletGroup == old(bulletGroup) && alienBulletGroup == old(alienBulletGroup)
                && spaceshipGroup == old(spaceshipGroup) && lastAlienShot == old(lastAlienShot)
                && (forall b :: b in bulletGroup ==> b.rect == old(b.rect))
                && (forall b :: b in alienBulletGroup ==> b.rect == old(b.rect))
                && (spaceship != null ==> && spaceship.rect == old(spaceship.rect)
                                          && spaceship.healthRemaining == old(spaceship.healthRemaining)
                                          && spaceship.lastShot == old(spaceship.lastShot))
      // Otherwise the ship, the bullets and the aliens take their turn.
      ensures old(countdown) == 0 && old(alienGroup) != [] && old(gameOver) == 0 ==>
                && (gameState == GameOver <==> old(spaceship.healthRemaining) <= 0)
                && (forall b :: b in old(bulletGroup) ==> b.rect == old(b.rect).MovedY(-PLAYER_BULLET_SPEED))
                && (forall a :: a in old(alienGroup) && a in alienGroup ==> a.State() == DriftStep(old(a.State())))
                && spaceship.rect == old(spaceship.rect).(x := ShipX(old(spaceship.rect.x), old(spaceship.rect.w), keys))
                && spaceship.lastShot == (if ShotReady(now, old(spaceship.lastShot), keys) then now else old(spaceship.lastShot))
                && (ShotReady(now, old(spaceship.lastShot), keys) ==>
                      && shot != null && fresh(shot)
                      && shot.rect == Centered(spaceship.rect.CenterX(), spaceship.rect.Top(), bulletSize).MovedY(-PLAYER_BULLET_SPEED))
      ensures old(gameOver) != 0 ==> gameState == old(gameState) || gameState == Victory
      ensures old(countdown) == 0 ==>
                lastAlienShot ==
                  if AlienMayShoot(now, old(lastAlienShot), |old(alienBulletGroup)|, |old(alienGroup)|) then now else old(lastAlienShot)
      // Every explosion on screen advances one frame and leaves once its animation is done.
      ensures forall e :: e in old(explosionGroup) ==> e.Frame() == AnimStep(old(e.Frame()))
      ensures forall e :: e in old(explosionGroup) ==> (e in explosionGroup <==> !AnimDone(e.Frame()))
      ensures forall e :: e in explosionGroup ==> e in old(explosionGroup) || fresh(e)
    {
      shot := null;
      if countdown == 0 {
        shot := PlayTick(now, keys, maskHit);
      }
      assert forall k :: 0 <= k < |explosionGroup| ==> explosionGroup[k] in old(explosionGroup) || fresh(explosionGroup[k]);
      EveryTick(now);
      result := gameOver;
    }

    /** `get_player_health` */
    function PlayerHealth(): (h: int)
      reads this, spaceship
      ensures spaceship == null ==> h == 0
      ensures spaceship != null ==> h == spaceship.healthRemaining
    {
      if spaceship != null then spaceship.healthRemaining else 0
    }

    /** `reset_game`: back to the menu with empty groups; score, name and the
        ship reference survive. */
    method ResetGame(now: int)
      requires Valid()
      modifies this
      ensures Valid()
      ensures gameState == Menu && gameOver == 0
      ensures countdown == COUNTDOWN_TIME && lastCount == now && lastAlienShot == now
      ensures spaceshipGroup == [] && bulletGroup == [] && alienGroup == []
      ensures alienBulletGroup == [] && explosionGroup == []
      ensures score == old(score) && playerName == old(playerName) && spaceship == old(spaceship)
    {
      ClearRound(now);
      gameState := Menu;
    }
  }
}
