/** The Kivy port's game widget (main_kivy.py, class GameWidget): a separate,
    list-based simulation. Every sprite is a small Python list ([x, y] or
    [x, y, life]) held in a plain list, so it is modelled as a value in a
    sequence; `list.remove` drops the first element equal to its argument. */
module KivyGame {

  // Constants of main_kivy.py
  const SCREEN_WIDTH: int := 600
  const SCREEN_HEIGHT: int := 800
  const PLAYER_SPEED: int := 8
  const BULLET_SPEED: int := 5
  const ALIEN_SPEED: int := 1
  const ALIEN_ROWS: int := 5
  const ALIEN_COLS: int := 5

  // Literals of GameWidget
  const START_HEALTH: int := 3
  const MOVE_PERIOD: int := 60      // frames between formation steps
  const EDGE: int := 50             // distance from a side that reverses the formation
  const DROP: int := 20             // how far the formation descends on a reversal
  const REACH: int := 30            // hit distance on each axis
  const KILL_POINTS: int := 100
  const ALIEN_BLAST_LIFE: int := 10
  const PLAYER_BLAST_LIFE: int := 15
  const PLAYER_Y: int := 100
  const MUZZLE: int := 30           // a shot starts this far above the player

  /** A player bullet or an alien: `[x, y]`, y growing upwards. */
  datatype Point = Point(x: int, y: int)

  /** An alien bullet: it falls half a bullet step per frame, so its
      coordinates are Python floats. */
  datatype Shot = Shot(x: real, y: real)

  /** An explosion: `[x, y, life]`. */
  datatype Blast = Blast(x: int, y: int, life: int)

  /** `game_state`: 'playing', 'game_over' or 'victory'. */
  datatype Phase = Playing | GameOver | Victory

  function Abs(n: int): nat { if n < 0 then -n else n }

  function RAbs(r: real): real { if r < 0.0 then -r else r }

  // ---------------------------------------------------------------------
  // Lists

  /** `list.remove(v)` (the source only calls it with a `v` that is present;
      an absent `v` leaves the list alone here). */
  function RemoveFirst<T(==)>(s: seq<T>, v: T): (r: seq<T>)
    ensures v !in s ==> r == s
    ensures v in s ==> |r| == |s| - 1
    ensures forall u :: u in r ==> u in s
  {
    if s == [] then []
    else if s[0] == v then s[1..]
    else [s[0]] + RemoveFirst(s[1..], v)
  }

  /** `s[j] = v` on the list `a + [x] + b`, with j = |a|. */
  lemma SetAfter<T>(a: seq<T>, x: T, b: seq<T>, v: T)
    ensures (a + [x] + b)[|a| := v] == a + [v] + b
  {
  }

  /** When `v` first occurs right after `a`, removing it leaves `a + b`. */
  lemma {:induction false} RemoveFirstAfter<T>(a: seq<T>, v: T, b: seq<T>)
    requires v !in a
    ensures RemoveFirst(a + [v] + b, v) == a + b
    decreases |a|
  {
    var s := a + [v] + b;
    if a == [] {
      assert s == [v] + b;
    } else {
      var t := a[1..] + [v] + b;
      assert s == [a[0]] + t;
      assert a[0] != v by { assert a[0] in a; }
      assert v !in a[1..] by {
        forall u | u in a[1..] ensures u in a { }
      }
      RemoveFirstAfter(a[1..], v, b);
      calc {
        RemoveFirst(s, v);
        [a[0]] + RemoveFirst(t, v);
        [a[0]] + (a[1..] + b);
        ([a[0]] + a[1..]) + b;
        { assert [a[0]] + a[1..] == a; }
        a + b;
      }
    }
  }

  // ---------------------------------------------------------------------
  // Formation

  /** Where `init_aliens` puts its k-th alien. */
  function Spawn(k: int): Point {
    Point(100 + (k % ALIEN_COLS) * 80, SCREEN_HEIGHT - 200 - (k / ALIEN_COLS) * 60)
  }

  /** Some alien is within EDGE of a side. */
  predicate AtEdge(aliens: seq<Point>) {
    exists i :: 0 <= i < |aliens| && (aliens[i].x <= EDGE || aliens[i].x >= SCREEN_WIDTH - EDGE)
  }

  /** The 25 spawn points are distinct, and the new formation is clear of
      both sides, so its first steps are sideways. */
  lemma FormationLayout(j: int, k: int)
    requires 0 <= j < k < ALIEN_ROWS * ALIEN_COLS
    ensures Spawn(j) != Spawn(k)
    ensures EDGE < Spawn(k).x < SCREEN_WIDTH - EDGE && Spawn(k).y <= SCREEN_HEIGHT - 200
  {
  }

  /** One step of `update_aliens` once the timer fires: at an edge the
      direction flips and everybody drops, otherwise everybody shifts. */
  function March(aliens: seq<Point>, direction: int): (r: (seq<Point>, int))
    ensures |r.0| == |aliens|
    ensures AtEdge(aliens) ==>
              && r.1 == -direction
              && forall i :: 0 <= i < |aliens| ==> r.0[i] == Point(aliens[i].x, aliens[i].y - DROP)
    ensures !AtEdge(aliens) ==>
              && r.1 == direction
              && forall i :: 0 <= i < |aliens| ==> r.0[i] == Point(aliens[i].x + ALIEN_SPEED * direction, aliens[i].y)
  {
    if AtEdge(aliens) then
      (seq(|aliens|, i requires 0 <= i < |aliens| => Point(aliens[i].x, aliens[i].y - DROP)), -direction)
    else
      (seq(|aliens|, i requires 0 <= i < |aliens| => Point(aliens[i].x + ALIEN_SPEED * direction, aliens[i].y)), direction)
  }

  /** The formation after `n` firings of the timer. */
  function Marches(aliens: seq<Point>, direction: int, n: nat): (seq<Point>, int)
    decreases n
  {
    if n == 0 then (aliens, direction)
    else var m := March(aliens, direction); Marches(m.0, m.1, n - 1)
  }

  /** As written, a reversal moves nobody sideways, so the alien that caused it
      is still at the edge on the next step: from then on the formation only
      drops and never moves sideways again, its direction flipping each time. */
  lemma {:induction false} FormationPinnedAtEdge(aliens: seq<Point>, direction: int, n: nat)
    requires AtEdge(aliens)
    ensures |Marches(aliens, direction, n).0| == |aliens|
    ensures forall i :: 0 <= i < |aliens| ==>
              Marches(aliens, direction, n).0[i] == Point(aliens[i].x, aliens[i].y - DROP * n)
    ensures Marches(aliens, direction, n).1 == if n % 2 == 0 then direction else -direction
    decreases n
  {
    if n > 0 {
      var m := March(aliens, direction);
      var i0 :| 0 <= i0 < |aliens| && (aliens[i0].x <= EDGE || aliens[i0].x >= SCREEN_WIDTH - EDGE);
      assert m.0[i0].x == aliens[i0].x;
      FormationPinnedAtEdge(m.0, m.1, n - 1);
      var r := Marches(m.0, m.1, n - 1);
      assert Marches(aliens, direction, n) == r;
      assert m.1 == -direction && |r.0| == |m.0| == |aliens|;
      assert (n % 2 == 0) == ((n - 1) % 2 == 1);
      forall i | 0 <= i < |aliens| ensures r.0[i] == Point(aliens[i].x, aliens[i].y - DROP * n) {
        assert r.0[i] == Point(m.0[i].x, m.0[i].y - DROP * (n - 1));
      }
    }
  }

  /** A single alien at the right edge shows it: two steps, two drops, no
      sideways move, and the direction back where it started. */
  lemma PinnedExample()
    ensures Marches([Point(550, 600)], 1, 2) == ([Point(550, 560)], 1)
  {
    var start := [Point(550, 600)];
    assert start[0].x >= SCREEN_WIDTH - EDGE;
    FormationPinnedAtEdge(start, 1, 2);
    var m := Marches(start, 1, 2);
    assert m.0[0] == Point(550, 560);
    assert m.0 == [Point(550, 560)];
  }

  /** The edge test the reversal evidently intends: the side the formation
      is heading for. */
  predicate Blocked(aliens: seq<Point>, direction: int) {
    exists i :: 0 <= i < |aliens| &&
      ((direction > 0 && aliens[i].x >= SCREEN_WIDTH - EDGE) || (direction < 0 && aliens[i].x <= EDGE))
  }

  /** `update_aliens` with the corrected edge test. */
  function IntendedMarch(aliens: seq<Point>, direction: int): (r: (seq<Point>, int))
    ensures |r.0| == |aliens|
    ensures Blocked(aliens, direction) ==>
              && r.1 == -direction
              && forall i :: 0 <= i < |aliens| ==> r.0[i] == Point(aliens[i].x, aliens[i].y - DROP)
    ensures !Blocked(aliens, direction) ==>
              && r.1 == direction
              && forall i :: 0 <= i < |aliens| ==> r.0[i] == Point(aliens[i].x + ALIEN_SPEED * direction, aliens[i].y)
  {
    if Blocked(aliens, direction) then
      (seq(|aliens|, i requires 0 <= i < |aliens| => Point(aliens[i].x, aliens[i].y - DROP)), -direction)
    else
      (seq(|aliens|, i requires 0 <= i < |aliens| => Point(aliens[i].x + ALIEN_SPEED * direction, aliens[i].y)), direction)
  }

  /** The formation is narrower than the gap between the two edges. */
  predicate Narrow(aliens: seq<Point>) {
    forall i, j :: 0 <= i < |aliens| && 0 <= j < |aliens| ==> aliens[i].x - aliens[j].x < SCREEN_WIDTH - 2 * EDGE
  }

  /** With the corrected test, a formation that fits between the edges
      follows every drop with a sideways step away from the edge. */
  lemma IntendedMarchLeavesEdge(aliens: seq<Point>, direction: int)
    requires direction == 1 || direction == -1
    requires Narrow(aliens) && Blocked(aliens, direction)
    ensures var m := IntendedMarch(aliens, direction);
            && Narrow(m.0) && !Blocked(m.0, m.1)
            && IntendedMarch(m.0, m.1).1 == -direction
            && forall i :: 0 <= i < |aliens| ==> IntendedMarch(m.0, m.1).0[i].x == aliens[i].x - direction
  {
    var m := IntendedMarch(aliens, direction);
    var i0 :| 0 <= i0 < |aliens| &&
      ((direction > 0 && aliens[i0].x >= SCREEN_WIDTH - EDGE) || (direction < 0 && aliens[i0].x <= EDGE));
    forall j | 0 <= j < |aliens|
      ensures (m.1 > 0 ==> m.0[j].x < SCREEN_WIDTH - EDGE) && (m.1 < 0 ==> m.0[j].x > EDGE)
    {
      assert m.0[j].x == aliens[j].x && m.0[i0].x == aliens[i0].x;
    }
  }

  // ---------------------------------------------------------------------
  // Bullets and explosions

  /** The loops of `update_bullets`, `update_alien_bullets` and
      `update_explosions` on a list: every element takes one `step`, in
      order, and the ones no longer `alive` leave. */
  function Survivors<T>(s: seq<T>, step: T -> T, alive: T -> bool): (r: seq<T>)
    ensures |r| <= |s|
    ensures forall x :: x in r ==> alive(x)
    decreases |s|
  {
    if s == [] then []
    else
      var rest := Survivors(s[..|s| - 1], step, alive);
      var moved := step(s[|s| - 1]);
      if alive(moved) then rest + [moved] else rest
  }

  /** One iteration of those loops on the list as it stands: the survivors of
      `s[..i]` come first, then the untouched `s[i..]`. Overwriting `s[i]`
      with its step, and removing that again when it died, leaves the
      survivors of `s[..i + 1]` followed by `s[i + 1..]`. */
  lemma SurvivorsStep<T>(cur: seq<T>, s: seq<T>, i: int, step: T -> T, alive: T -> bool)
    requires 0 <= i < |s|
    requires cur == Survivors(s[..i], step, alive) + s[i..]
    ensures var done := Survivors(s[..i], step, alive);
            var after := cur[|done| := step(s[i])];
            && (if alive(step(s[i])) then after else RemoveFirst(after, step(s[i])))
                 == Survivors(s[..i + 1], step, alive) + s[i + 1..]
            && |Survivors(s[..i + 1], step, alive)| == |done| + (if alive(step(s[i])) then 1 else 0)
  {
    var done := Survivors(s[..i], step, alive);
    assert s[..i + 1][..i] == s[..i];
    assert s[i..] == [s[i]] + s[i + 1..];
    assert cur == done + [s[i]] + s[i + 1..];
    SetAfter(done, s[i], s[i + 1..], step(s[i]));
    if !alive(step(s[i])) {
      RemoveFirstAfter(done, step(s[i]), s[i + 1..]);
    }
  }

  /** Every survivor is the step of some element, and every element whose
      step is alive survives. */
  lemma {:induction false} SurvivorsMembers<T>(s: seq<T>, step: T -> T, alive: T -> bool)
    ensures forall x :: x in Survivors(s, step, alive) ==> exists y :: y in s && x == step(y)
    ensures forall y :: y in s && alive(step(y)) ==> step(y) in Survivors(s, step, alive)
    decreases |s|
  {
    if s != [] {
      var front := s[..|s| - 1];
      var last := s[|s| - 1];
      SurvivorsMembers(front, step, alive);
      assert s == front + [last];
      forall x | x in Survivors(s, step, alive) ensures exists y :: y in s && x == step(y) {
        if x in Survivors(front, step, alive) {
          var y :| y in front && x == step(y);
          assert y in s;
        } else {
          assert x == step(last);
        }
      }
    }
  }

  function Climb(p: Point): Point { Point(p.x, p.y + BULLET_SPEED) }
  predicate OnScreen(p: Point) { p.y <= SCREEN_HEIGHT }

  /** `update_bullets` on a list: each bullet climbs BULLET_SPEED and the ones
      past the top are dropped. */
  function Flown(bullets: seq<Point>): (r: seq<Point>)
    ensures forall p :: p in r ==> p.y <= SCREEN_HEIGHT
  {
    Survivors(bullets, Climb, OnScreen)
  }

  /** Exactly the bullets still on screen after their climb survive. */
  lemma FlownKeepsOnScreen(bullets: seq<Point>)
    ensures |Flown(bullets)| <= |bullets|
    ensures forall p :: p in Flown(bullets) ==> Point(p.x, p.y - BULLET_SPEED) in bullets
    ensures forall p :: p in bullets && p.y + BULLET_SPEED <= SCREEN_HEIGHT ==>
              Point(p.x, p.y + BULLET_SPEED) in Flown(bullets)
  {
    SurvivorsMembers(bullets, Climb, OnScreen);
    forall p | p in Flown(bullets) ensures Point(p.x, p.y - BULLET_SPEED) in bullets {
      var q :| q in bullets && p == Climb(q);
    }
    forall p | p in bullets && p.y + BULLET_SPEED <= SCREEN_HEIGHT
      ensures Point(p.x, p.y + BULLET_SPEED) in Flown(bullets)
    {
      assert OnScreen(Climb(p));
    }
  }

  /** An alien bullet falls half a bullet step per frame. */
  function Drop(s: Shot): Shot { Shot(s.x, s.y - BULLET_SPEED as real * 0.5) }
  predicate AboveBottom(s: Shot) { s.y >= 0.0 }

  /** `update_alien_bullets` on a list: each shot falls and the ones past
      the bottom are dropped. */
  function Fallen(shots: seq<Shot>): (r: seq<Shot>)
    ensures |r| <= |shots|
    ensures forall s :: s in r ==> s.y >= 0.0
  {
    Survivors(shots, Drop, AboveBottom)
  }

  /** Every shot left has fallen half a bullet step, and exactly the shots
      still at or above the bottom after their fall survive. */
  lemma FallenKeepsOnScreen(shots: seq<Shot>)
    ensures |Fallen(shots)| <= |shots|
    ensures forall s :: s in Fallen(shots) ==> Shot(s.x, s.y + BULLET_SPEED as real * 0.5) in shots
    ensures forall s :: s in shots && s.y - BULLET_SPEED as real * 0.5 >= 0.0 ==>
              Shot(s.x, s.y - BULLET_SPEED as real * 0.5) in Fallen(shots)
  {
    SurvivorsMembers(shots, Drop, AboveBottom);
    forall s | s in Fallen(shots) ensures Shot(s.x, s.y + BULLET_SPEED as real * 0.5) in shots {
      var q :| q in shots && s == Drop(q);
    }
    forall s | s in shots && s.y - BULLET_SPEED as real * 0.5 >= 0.0
      ensures Shot(s.x, s.y - BULLET_SPEED as real * 0.5) in Fallen(shots)
    {
      assert AboveBottom(Drop(s));
    }
  }

  function Burn(e: Blast): Blast { Blast(e.x, e.y, e.life - 1) }
  predicate Burning(e: Blast) { e.life > 0 }

  /** `update_explosions` on a list: each explosion loses one unit of life
      and the spent ones are dropped. */
  function Faded(explosions: seq<Blast>): (r: seq<Blast>)
    ensures forall e :: e in r ==> e.life > 0
  {
    Survivors(explosions, Burn, Burning)
  }

  /** Every explosion left has one unit of life less than before, and exactly
      the ones with life to spare are left. */
  lemma FadedKeepsLiving(explosions: seq<Blast>)
    ensures |Faded(explosions)| <= |explosions|
    ensures forall e :: e in Faded(explosions) ==> Blast(e.x, e.y, e.life + 1) in explosions
    ensures forall e :: e in explosions && e.life > 1 ==> Blast(e.x, e.y, e.life - 1) in Faded(explosions)
  {
    SurvivorsMembers(explosions, Burn, Burning);
    forall e | e in Faded(explosions) ensures Blast(e.x, e.y, e.life + 1) in explosions {
      var q :| q in explosions && e == Burn(q);
    }
    forall e | e in explosions && e.life > 1 ensures Blast(e.x, e.y, e.life - 1) in Faded(explosions) {
      assert Burning(Burn(e));
    }
  }

  // ---------------------------------------------------------------------
  // Collisions

  predicate Near(b: Point, a: Point) {
    Abs(b.x - a.x) < REACH && Abs(b.y - a.y) < REACH
  }

  /** The position of the first alien within reach of `b`, or |aliens|. */
  function FirstNear(b: Point, aliens: seq<Point>): (k: nat)
    ensures k <= |aliens|
    ensures forall m :: 0 <= m < k ==> !Near(b, aliens[m])
    ensures k < |aliens| ==> Near(b, aliens[k])
    decreases |aliens|
  {
    if aliens == [] then 0
    else if Near(b, aliens[0]) then 0
    else 1 + FirstNear(b, aliens[1..])
  }

  /** What the player-bullet loop of `check_collisions` works on. */
  datatype Battle = Battle(bullets: seq<Point>, aliens: seq<Point>, score: int, explosions: seq<Blast>)

  /** One bullet of the loop: it takes out the first alien within reach, if
      any, scoring KILL_POINTS and leaving an explosion where the alien was. */
  function Hit(f: Battle, b: Point): (r: Battle)
    ensures FirstNear(b, f.aliens) == |f.aliens| ==> r == f
    ensures FirstNear(b, f.aliens) < |f.aliens| ==>
              var a := f.aliens[FirstNear(b, f.aliens)];
              && r.aliens == f.aliens[..FirstNear(b, f.aliens)] + f.aliens[FirstNear(b, f.aliens) + 1..]
              && r.bullets == RemoveFirst(f.bullets, b)
              && r.score == f.score + KILL_POINTS
              && r.explosions == f.explosions + [Blast(a.x, a.y, ALIEN_BLAST_LIFE)]
  {
    var k := FirstNear(b, f.aliens);
    if k == |f.aliens| then f
    else
      var a := f.aliens[k];
      assert a !in f.aliens[..k];
      RemoveFirstAfter(f.aliens[..k], a, f.aliens[k + 1..]);
      assert f.aliens == f.aliens[..k] + [a] + f.aliens[k + 1..];
      Battle(RemoveFirst(f.bullets, b), RemoveFirst(f.aliens, a), f.score + KILL_POINTS,
             f.explosions + [Blast(a.x, a.y, ALIEN_BLAST_LIFE)])
  }

  /** The loop over a snapshot of the bullets. */
  function Volley(f: Battle, shots: seq<Point>): Battle
    decreases |shots|
  {
    if shots == [] then f else Hit(Volley(f, shots[..|shots| - 1]), shots[|shots| - 1])
  }

  /** One more bullet of the loop, from the battle `cur` the earlier ones
      left: `k` is where the search for its target stops. */
  lemma VolleyStep(f: Battle, shots: seq<Point>, i: int, cur: Battle, k: int)
    requires 0 <= i < |shots| && cur == Volley(f, shots[..i])
    requires 0 <= k <= |cur.aliens|
    requires forall m :: 0 <= m < k ==> !Near(shots[i], cur.aliens[m])
    requires k < |cur.aliens| ==> Near(shots[i], cur.aliens[k])
    ensures Volley(f, shots[..i + 1]) ==
              if k == |cur.aliens| then cur
              else Battle(RemoveFirst(cur.bullets, shots[i]), RemoveFirst(cur.aliens, cur.aliens[k]),
                          cur.score + KILL_POINTS,
                          cur.explosions + [Blast(cur.aliens[k].x, cur.aliens[k].y, ALIEN_BLAST_LIFE)])
  {
    assert shots[..i + 1][..i] == shots[..i];
    FirstNearUnique(shots[i], cur.aliens, k);
  }

  lemma {:induction false} FirstNearUnique(b: Point, aliens: seq<Point>, k: int)
    requires 0 <= k <= |aliens|
    requires forall m :: 0 <= m < k ==> !Near(b, aliens[m])
    requires k < |aliens| ==> Near(b, aliens[k])
    ensures k == FirstNear(b, aliens)
    decreases |aliens|
  {
    if aliens != [] && k > 0 {
      FirstNearUnique(b, aliens[1..], k - 1);
    }
  }

  /** One bullet destroys at most one alien, scores for it and leaves one
      explosion for it. */
  lemma HitAccounting(f: Battle, b: Point)
    ensures var r := Hit(f, b);
            && |r.aliens| <= |f.aliens| <= |r.aliens| + 1
            && r.score == f.score + KILL_POINTS * (|f.aliens| - |r.aliens|)
            && |r.explosions| == |f.explosions| + (|f.aliens| - |r.aliens|)
            && (forall e :: e in r.explosions ==> e in f.explosions || e.life == ALIEN_BLAST_LIFE)
            && (forall a :: a in r.aliens ==> a in f.aliens)
            && (forall p :: p in r.bullets ==> p in f.bullets)
  {
    var k := FirstNear(b, f.aliens);
    if k < |f.aliens| {
      assert f.aliens == f.aliens[..k] + [f.aliens[k]] + f.aliens[k + 1..];
    }
  }

  /** Each bullet destroys at most one alien, every kill scores KILL_POINTS and
      leaves one explosion of life ALIEN_BLAST_LIFE, and nothing else changes
      the aliens or the explosions. */
  lemma {:induction false} VolleyAccounting(f: Battle, shots: seq<Point>)
    ensures var r := Volley(f, shots);
            && |r.aliens| <= |f.aliens|
            && |f.aliens| - |r.aliens| <= |shots|
            && r.score == f.score + KILL_POINTS * (|f.aliens| - |r.aliens|)
            && |r.explosions| == |f.explosions| + (|f.aliens| - |r.aliens|)
            && (forall e :: e in r.explosions ==> e in f.explosions || e.life == ALIEN_BLAST_LIFE)
            && (forall a :: a in r.aliens ==> a in f.aliens)
            && (forall p :: p in r.bullets ==> p in f.bullets)
    decreases |shots|
  {
    if shots != [] {
      VolleyAccounting(f, shots[..|shots| - 1]);
      HitAccounting(Volley(f, shots[..|shots| - 1]), shots[|shots| - 1]);
    }
  }

  /** What the alien-bullet loop of `check_collisions` works on. */
  datatype Damage = Damage(shots: seq<Shot>, health: int, explosions: seq<Blast>)

  predicate Strikes(s: Shot, player: Point) {
    RAbs(s.x - player.x as real) < REACH as real && RAbs(s.y - player.y as real) < REACH as real
  }

  /** How many of `shots` are within reach of the player. */
  function StrikeCount(shots: seq<Shot>, player: Point): (n: nat)
    ensures n <= |shots|
    decreases |shots|
  {
    if shots == [] then 0
    else StrikeCount(shots[..|shots| - 1], player) + (if Strikes(shots[|shots| - 1], player) then 1 else 0)
  }

  /** The shots that miss the player, in their order. */
  function Missed(shots: seq<Shot>, player: Point): (r: seq<Shot>)
    ensures |r| == |shots| - StrikeCount(shots, player)
    ensures forall s :: s in r <==> s in shots && !Strikes(s, player)
    decreases |shots|
  {
    if shots == [] then []
    else
      var last := shots[|shots| - 1];
      assert shots == shots[..|shots| - 1] + [last];
      Missed(shots[..|shots| - 1], player) + (if Strikes(last, player) then [] else [last])
  }

  /** The loop over a snapshot of the alien bullets: each one within reach of
      the player is removed, costs one health and leaves an explosion on the
      player. */
  function Struck(d: Damage, player: Point, shots: seq<Shot>): (r: Damage)
    ensures shots == [] ==> r == d
    ensures r.health == d.health - StrikeCount(shots, player)
    ensures |r.explosions| == |d.explosions| + (d.health - r.health)
    ensures r.explosions[..|d.explosions|] == d.explosions
    ensures forall i :: |d.explosions| <= i < |r.explosions| ==>
              r.explosions[i] == Blast(player.x, player.y, PLAYER_BLAST_LIFE)
    decreases |shots|
  {
    if shots == [] then d
    else
      var e := Struck(d, player, shots[..|shots| - 1]);
      var s := shots[|shots| - 1];
      if Strikes(s, player) then
        Damage(RemoveFirst(e.shots, s), e.health - 1, e.explosions + [Blast(player.x, player.y, PLAYER_BLAST_LIFE)])
      else e
  }

  /** Part way through the loop over its own list, the shots already seen
      that strike are gone and the rest of the list is untouched. */
  lemma {:induction false} StruckPrefix(h: int, ex: seq<Blast>, player: Point, shots: seq<Shot>, i: nat)
    requires i <= |shots|
    ensures Struck(Damage(shots, h, ex), player, shots[..i]).shots == Missed(shots[..i], player) + shots[i..]
    decreases i
  {
    if i > 0 {
      var d := Damage(shots, h, ex);
      var m := Missed(shots[..i - 1], player);
      var s := shots[i - 1];
      var tail := shots[i..];
      SplitBefore(shots, i);
      StruckPrefix(h, ex, player, shots, i - 1);
      var e := Struck(d, player, shots[..i - 1]);
      assert e.shots == m + [s] + tail;
      StruckStep(d, player, shots, i - 1);
      var r := Struck(d, player, shots[..i]);
      assert Missed(shots[..i], player) == m + (if Strikes(s, player) then [] else [s]);
      if Strikes(s, player) {
        assert s !in m;
        RemoveFirstAfter(m, s, tail);
        assert r.shots == m + tail;
      } else {
        assert r.shots == e.shots;
      }
    }
  }

  /** Where the element before index `i` sits, on both sides of `i`. */
  lemma SplitBefore<T>(s: seq<T>, i: int)
    requires 0 < i <= |s|
    ensures s[..i][..i - 1] == s[..i - 1] && s[..i][i - 1] == s[i - 1]
    ensures s[i - 1..] == [s[i - 1]] + s[i..]
  {
  }

  /** `check_collisions` on the alien bullets: exactly the shots that miss
      survive, in order, and the player loses one health per shot that
      strikes, each leaving one explosion. */
  lemma StruckLeavesMisses(h: int, ex: seq<Blast>, player: Point, shots: seq<Shot>)
    ensures var r := Struck(Damage(shots, h, ex), player, shots);
            && r.shots == Missed(shots, player)
            && r.health == h - StrikeCount(shots, player)
            && |r.explosions| == |ex| + StrikeCount(shots, player)
  {
    StruckPrefix(h, ex, player, shots, |shots|);
    assert shots[..|shots|] == shots;
  }

  /** One more alien bullet of the loop. */
  lemma StruckStep(d: Damage, player: Point, shots: seq<Shot>, i: int)
    requires 0 <= i < |shots|
    ensures var e := Struck(d, player, shots[..i]);
            Struck(d, player, shots[..i + 1]) ==
              if Strikes(shots[i], player)
              then Damage(RemoveFirst(e.shots, shots[i]), e.health - 1,
                          e.explosions + [Blast(player.x, player.y, PLAYER_BLAST_LIFE)])
              else e
  {
    assert shots[..i + 1][..i] == shots[..i];
  }

  // ---------------------------------------------------------------------
  // The whole widget as a value

  /** The widget's simulation state. */
  datatype World = World(
    score: int, health: int, phase: Phase, player: Point,
    bullets: seq<Point>, aliens: seq<Point>, alienShots: seq<Shot>, explosions: seq<Blast>,
    direction: int, moveTimer: int)

  /** `update_aliens`: the timer counts frames and every MOVE_PERIOD-th one
      steps the formation. */
  function AlienPhase(w: World): (r: World)
    ensures 0 <= w.moveTimer < MOVE_PERIOD ==> 0 <= r.moveTimer < MOVE_PERIOD
    ensures w.moveTimer + 1 < MOVE_PERIOD ==> r == w.(moveTimer := w.moveTimer + 1)
    ensures w.moveTimer + 1 >= MOVE_PERIOD ==>
              r == w.(moveTimer := 0, aliens := March(w.aliens, w.direction).0, direction := March(w.aliens, w.direction).1)
  {
    if w.moveTimer + 1 >= MOVE_PERIOD then
      var m := March(w.aliens, w.direction);
      w.(moveTimer := 0, aliens := m.0, direction := m.1)
    else w.(moveTimer := w.moveTimer + 1)
  }

  /** `check_collisions` */
  function Collide(w: World): World {
    var b := Volley(Battle(w.bullets, w.aliens, w.score, w.explosions), w.bullets);
    var d := Struck(Damage(w.alienShots, w.health, b.explosions), w.player, w.alienShots);
    w.(bullets := b.bullets, aliens := b.aliens, score := b.score,
       alienShots := d.shots, health := d.health, explosions := d.explosions)
  }

  /** `check_game_over`: defeat is checked before victory. */
  function Judge(w: World): (r: World)
    ensures w.health <= 0 ==> r.phase == GameOver
    ensures w.health > 0 && w.aliens == [] ==> r.phase == Victory
    ensures w.health > 0 && w.aliens != [] ==> r.phase == w.phase
    ensures r == w.(phase := r.phase)
  {
    if w.health <= 0 then w.(phase := GameOver)
    else if |w.aliens| == 0 then w.(phase := Victory)
    else w
  }

  /** The movement half of `update`: bullets, aliens, alien bullets and
      explosions, in that order. */
  function Advance(w: World): World {
    var w1 := w.(bullets := Flown(w.bullets));
    var w2 := AlienPhase(w1);
    var w3 := w2.(alienShots := Fallen(w2.alienShots));
    w3.(explosions := Faded(w3.explosions))
  }

  /** `update`: one frame, only while playing. */
  function Tick(w: World): World {
    if w.phase != Playing then w else Judge(Collide(Advance(w)))
  }

  /** What holds of the widget from its construction on. Nothing ever adds an
      alien bullet, so the player is never hit; every alien destroyed is worth
      KILL_POINTS of the score. */
  ghost predicate WorldOk(w: World) {
    && 0 <= w.moveTimer < MOVE_PERIOD
    && (w.direction == 1 || w.direction == -1)
    && w.alienShots == []
    && w.health == START_HEALTH
    && w.phase != GameOver
    && w.player.y == PLAYER_Y && EDGE <= w.player.x <= SCREEN_WIDTH - EDGE
    && (forall b :: b in w.bullets ==> b.y <= SCREEN_HEIGHT)
    && (forall e :: e in w.explosions ==> 0 < e.life <= PLAYER_BLAST_LIFE)
    && w.score + KILL_POINTS * |w.aliens| == KILL_POINTS * ALIEN_ROWS * ALIEN_COLS
  }

  /** The collision checks keep the invariant: kills and score stay in step,
      and the only new explosions are alien ones of life ALIEN_BLAST_LIFE. */
  lemma CollideKeepsWorldOk(w: World)
    requires WorldOk(w)
    ensures WorldOk(Collide(w))
  {
    var f := Battle(w.bullets, w.aliens, w.score, w.explosions);
    VolleyAccounting(f, w.bullets);
    var b := Volley(f, w.bullets);
    var d := Struck(Damage(w.alienShots, w.health, b.explosions), w.player, w.alienShots);
    assert d == Damage(w.alienShots, w.health, b.explosions);
  }

  /** A frame keeps the widget's invariant; in particular the Kivy game can
      be won but never lost. */
  lemma TickKeepsWorldOk(w: World)
    requires WorldOk(w)
    ensures WorldOk(Tick(w))
  {
    if w.phase == Playing {
      var w2 := AlienPhase(w.(bullets := Flown(w.bullets)));
      FadedKeepsLiving(w2.explosions);
      assert WorldOk(Advance(w));
      CollideKeepsWorldOk(Advance(w));
    }
  }

  /** Frames change nothing once the game is over. */
  lemma FinishedGameIsFrozen(w: World)
    requires w.phase != Playing
    ensures Tick(w) == w
  {
  }

  // ---------------------------------------------------------------------
  // The widget

  class GameWidget {
    var score: int
    var playerHealth: int
    var gameState: Phase
    var playerName: string
    var playerPos: Point
    var bullets: seq<Point>
    var aliens: seq<Point>
    var alienBullets: seq<Shot>
    var explosions: seq<Blast>
    var alienDirection: int
    var alienMoveTimer: int

    function Model(): World
      reads this
    {
      World(score, playerHealth, gameState, playerPos, bullets, aliens, alienBullets, explosions,
            alienDirection, alienMoveTimer)
    }

    ghost predicate Valid()
      reads this
    {
      WorldOk(Model())
    }

    /** `__init__`: the class-level defaults, the player at the bottom centre,
        empty lists, then a full formation. The frame clock is not modelled. */
    constructor ()
      ensures Valid()
      ensures score == 0 && playerHealth == START_HEALTH && gameState == Playing && playerName == ""
      ensures playerPos == Point(SCREEN_WIDTH / 2, PLAYER_Y)
      ensures bullets == [] && alienBullets == [] && explosions == []
      ensures alienDirection == 1 && alienMoveTimer == 0
      ensures |aliens| == ALIEN_ROWS * ALIEN_COLS && forall k :: 0 <= k < |aliens| ==> aliens[k] == Spawn(k)
    {
      score := 0;
      playerHealth := START_HEALTH;
      gameState := Playing;
      playerName := "";
      playerPos := Point(SCREEN_WIDTH / 2, PLAYER_Y);
      bullets, aliens, alienBullets, explosions := [], [], [], [];
      alienDirection := 1;
      alienMoveTimer := 0;
      new;
      InitAliens();
    }

    /** `init_aliens`: a fresh formation, row by row. */
    method InitAliens()
      modifies this`aliens
      ensures |aliens| == ALIEN_ROWS * ALIEN_COLS
      ensures forall k :: 0 <= k < |aliens| ==> aliens[k] == Spawn(k)
    {
      aliens := [];
      for row := 0 to ALIEN_ROWS
        invariant |aliens| == row * ALIEN_COLS
        invariant forall k :: 0 <= k < |aliens| ==> aliens[k] == Spawn(k)
      {
        for col := 0 to ALIEN_COLS
          invariant |aliens| == row * ALIEN_COLS + col
          invariant forall k :: 0 <= k < |aliens| ==> aliens[k] == Spawn(k)
        {
          assert (row * ALIEN_COLS + col) % ALIEN_COLS == col && (row * ALIEN_COLS + col) / ALIEN_COLS == row;
          aliens := aliens + [Point(100 + col * 80, SCREEN_HEIGHT - 200 - row * 60)];
        }
      }
    }

    /** `start_game`: a new round for `name`. The player's position, the
        formation's direction and the move timer carry over. */
    method StartGame(name: string)
      requires Valid()
      modifies this
      ensures Valid()
      ensures playerName == name && score == 0 && playerHealth == START_HEALTH && gameState == Playing
      ensures bullets == [] && alienBullets == [] && explosions == []
      ensures |aliens| == ALIEN_ROWS * ALIEN_COLS && forall k :: 0 <= k < |aliens| ==> aliens[k] == Spawn(k)
      ensures playerPos == old(playerPos) && alienDirection == old(alienDirection)
      ensures alienMoveTimer == old(alienMoveTimer)
    {
      playerName := name;
      score := 0;
      playerHealth := START_HEALTH;
      gameState := Playing;
      bullets := [];
      alienBullets := [];
      explosions := [];
      InitAliens();
    }

    /** `update_bullets` */
    method UpdateBullets()
      modifies this`bullets
      ensures bullets == Flown(old(bullets))
    {
      var flying := bullets;
      var kept := 0;
      for i := 0 to |flying|
        invariant bullets == Flown(flying[..i]) + flying[i..]
        invariant kept == |Flown(flying[..i])|
      {
        var moved := Climb(flying[i]);
        SurvivorsStep(bullets, flying, i, Climb, OnScreen);
        bullets := bullets[kept := moved];
        if !OnScreen(moved) {
          bullets := RemoveFirst(bullets, moved);
        } else {
          kept := kept + 1;
        }
      }
      assert flying[..|flying|] == flying;
    }

    /** `update_aliens` */
    method UpdateAliens()
      modifies this`aliens, this`alienDirection, this`alienMoveTimer
      ensures Model() == AlienPhase(old(Model()))
    {
      alienMoveTimer := alienMoveTimer + 1;
      if alienMoveTimer >= MOVE_PERIOD {
        alienMoveTimer := 0;
        var needDirectionChange := false;
        for i := 0 to |aliens|
          invariant !needDirectionChange
          invariant forall m :: 0 <= m < i ==> !(aliens[m].x <= EDGE || aliens[m].x >= SCREEN_WIDTH - EDGE)
        {
          if aliens[i].x <= EDGE || aliens[i].x >= SCREEN_WIDTH - EDGE {
            needDirectionChange := true;
            break;
          }
        }
        assert needDirectionChange <==> AtEdge(aliens);
        var formation := aliens;
        if needDirectionChange {
          alienDirection := alienDirection * -1;
          for i := 0 to |formation|
            invariant |formation| == |aliens|
            invariant forall m :: 0 <= m < i ==> formation[m] == Point(aliens[m].x, aliens[m].y - DROP)
            invariant forall m :: i <= m < |formation| ==> formation[m] == aliens[m]
          {
            formation := formation[i := Point(formation[i].x, formation[i].y - DROP)];
          }
        } else {
          for i := 0 to |formation|
            invariant |formation| == |aliens|
            invariant forall m :: 0 <= m < i ==> formation[m] == Point(aliens[m].x + ALIEN_SPEED * alienDirection, aliens[m].y)
            invariant forall m :: i <= m < |formation| ==> formation[m] == aliens[m]
          {
            formation := formation[i := Point(formation[i].x + ALIEN_SPEED * alienDirection, formation[i].y)];
          }
        }
        assert formation == March(aliens, old(alienDirection)).0;
        aliens := formation;
      }
    }

    /** `update_alien_bullets` */
    method UpdateAlienBullets()
      modifies this`alienBullets
      ensures alienBullets == Fallen(old(alienBullets))
    {
      var falling := alienBullets;
      var kept := 0;
      for i := 0 to |falling|
        invariant alienBullets == Fallen(falling[..i]) + falling[i..]
        invariant kept == |Fallen(falling[..i])|
      {
        var moved := Drop(falling[i]);
        SurvivorsStep(alienBullets, falling, i, Drop, AboveBottom);
        alienBullets := alienBullets[kept := moved];
        if !AboveBottom(moved) {
          alienBullets := RemoveFirst(alienBullets, moved);
        } else {
          kept := kept + 1;
        }
      }
      assert falling[..|falling|] == falling;
    }

    /** `update_explosions` */
    method UpdateExplosions()
      modifies this`explosions
      ensures explosions == Faded(old(explosions))
    {
      var burning := explosions;
      var kept := 0;
      for i := 0 to |burning|
        invariant explosions == Faded(burning[..i]) + burning[i..]
        invariant kept == |Faded(burning[..i])|
      {
        var moved := Burn(burning[i]);
        SurvivorsStep(explosions, burning, i, Burn, Burning);
        explosions := explosions[kept := moved];
        if !Burning(moved) {
          explosions := RemoveFirst(explosions, moved);
        } else {
          kept := kept + 1;
        }
      }
      assert burning[..|burning|] == burning;
    }

    /** `check_collisions`: player bullets against aliens, then alien bullets
        against the player. */
    method CheckCollisions()
      modifies this`bullets, this`aliens, this`score, this`explosions, this`alienBullets, this`playerHealth
      ensures Model() == Collide(old(Model()))
    {
      ShootAliens();
      HitPlayer();
    }

    /** The first loop of `check_collisions`, over a copy of the bullets. */
    method ShootAliens()
      modifies this`bullets, this`aliens, this`score, this`explosions
      ensures Battle(bullets, aliens, score, explosions) ==
              Volley(Battle(old(bullets), old(aliens), old(score), old(explosions)), old(bullets))
    {
      var flying := bullets;
      ghost var start := Battle(bullets, aliens, score, explosions);
      for i := 0 to |flying|
        invariant Battle(bullets, aliens, score, explosions) == Volley(start, flying[..i])
      {
        var bullet := flying[i];
        var targets := aliens;
        var k := FindTarget(bullet, targets);
        VolleyStep(start, flying, i, Battle(bullets, aliens, score, explosions), k);
        if k < |targets| {
          var alien := targets[k];
          bullets := RemoveFirst(bullets, bullet);
          aliens := RemoveFirst(aliens, alien);
          score := score + KILL_POINTS;
          explosions := explosions + [Blast(alien.x, alien.y, ALIEN_BLAST_LIFE)];
        }
      }
      assert flying[..|flying|] == flying;
    }

    /** The inner loop of `check_collisions`: the position of the first alien
        within reach of `bullet`, or |targets| when there is none. */
    static method FindTarget(bullet: Point, targets: seq<Point>) returns (k: int)
      ensures 0 <= k <= |targets|
      ensures forall m :: 0 <= m < k ==> !Near(bullet, targets[m])
      ensures k < |targets| ==> Near(bullet, targets[k])
    {
      k := 0;
      while k < |targets| && !Near(bullet, targets[k])
        invariant 0 <= k <= |targets|
        invariant forall m :: 0 <= m < k ==> !Near(bullet, targets[m])
      {
        k := k + 1;
      }
    }

    /** The second loop of `check_collisions`, over a copy of the alien bullets. */
    method HitPlayer()
      modifies this`alienBullets, this`playerHealth, this`explosions
      ensures Damage(alienBullets, playerHealth, explosions) ==
              Struck(Damage(old(alienBullets), old(playerHealth), old(explosions)), playerPos, old(alienBullets))
    {
      var falling := alienBullets;
      ghost var hurt := Damage(alienBullets, playerHealth, explosions);
      for i := 0 to |falling|
        invariant Damage(alienBullets, playerHealth, explosions) == Struck(hurt, playerPos, falling[..i])
      {
        var shot := falling[i];
        StruckStep(hurt, playerPos, falling, i);
        if Strikes(shot, playerPos) {
          alienBullets := RemoveFirst(alienBullets, shot);
          playerHealth := playerHealth - 1;
          explosions := explosions + [Blast(playerPos.x, playerPos.y, PLAYER_BLAST_LIFE)];
        }
      }
      assert falling[..|falling|] == falling;
    }

    /** `check_game_over`, without the switch to the game-over screen. */
    method CheckGameOver()
      modifies this`gameState
      ensures Model() == Judge(old(Model()))
    {
      if playerHealth <= 0 {
        gameState := GameOver;
      } else if |aliens| == 0 {
        gameState := Victory;
      }
    }

    /** `update`: a frame while playing, nothing otherwise. */
    method Update()
      requires Valid()
      modifies this`bullets, this`aliens, this`alienBullets, this`explosions, this`score, this`playerHealth
      modifies this`alienDirection, this`alienMoveTimer, this`gameState
      ensures Valid()
      ensures Model() == Tick(old(Model()))
    {
      if gameState != Playing {
        return;
      }
      ghost var w := Model();
      UpdateBullets();
      UpdateAliens();
      UpdateAlienBullets();
      UpdateExplosions();
      assert Model() == Advance(w);
      CheckCollisions();
      CheckGameOver();
      TickKeepsWorldOk(w);
    }

    /** `on_touch_move`: a touch left of the middle steps the player left,
        anywhere else right, never past EDGE from a side. */
    method OnTouchMove(touchX: real)
      requires Valid()
      modifies this`playerPos
      ensures Valid()
      ensures gameState != Playing ==> playerPos == old(playerPos)
      ensures gameState == Playing && touchX < (SCREEN_WIDTH / 2) as real ==>
                playerPos == old(playerPos).(x := if old(playerPos.x) - PLAYER_SPEED < EDGE then EDGE
                                                  else old(playerPos.x) - PLAYER_SPEED)
      ensures gameState == Playing && touchX >= (SCREEN_WIDTH / 2) as real ==>
                playerPos == old(playerPos).(x := if old(playerPos.x) + PLAYER_SPEED > SCREEN_WIDTH - EDGE
                                                  then SCREEN_WIDTH - EDGE else old(playerPos.x) + PLAYER_SPEED)
    {
      if gameState == Playing {
        if touchX < (SCREEN_WIDTH / 2) as real {
          var x := playerPos.x - PLAYER_SPEED;
          playerPos := playerPos.(x := if x < EDGE then EDGE else x);
        } else {
          var x := playerPos.x + PLAYER_SPEED;
          playerPos := playerPos.(x := if x > SCREEN_WIDTH - EDGE then SCREEN_WIDTH - EDGE else x);
        }
      }
    }

    /** `on_touch_down`: a shot just above the player, while playing. */
    method OnTouchDown()
      requires Valid()
      modifies this`bullets
      ensures Valid()
      ensures gameState == Playing ==> bullets == old(bullets) + [Point(playerPos.x, playerPos.y + MUZZLE)]
      ensures gameState != Playing ==> bullets == old(bullets)
    {
      if gameState == Playing {
        bullets := bullets + [Point(playerPos.x, playerPos.y + MUZZLE)];
      }
    }
  }
}
