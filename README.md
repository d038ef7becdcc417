# Space Invaders: the game simulation, in Dafny

This project models the game logic of a Space Invaders written in Python. There
are two front ends, and both are modelled:

- **The pygame version.** Five sprite kinds move and collide each frame: the
  player's spaceship, player bullets, aliens, alien bullets and explosions. A
  `GameManager` runs the match: a new game, a three-second countdown, alien
  volleys under a cooldown and a cap, the per-tick update order, scoring, and
  the reset to the menu. A `UIManager` handles the player-name entry field and
  words the "Last 3 games" lines of the menu.
- **The Kivy port.** Its `GameWidget` runs a separate simulation on plain
  Python lists. The formation is stepped by a timer. Each kill is worth 100
  points. Explosions carry a life count.

Modules:

- `Geometry`: pygame's `Rect`, with strict-overlap `colliderect`.
- `Config`: the constants of `config.py`.
- `Groups`: a pygame sprite group, as a duplicate-free sequence.
- `Sprites`: one class per sprite kind, each with an `Update` that changes its
  fields in place.
- `GameManagement`: the `GameManager` class.
- `UiManagement`: the entry-field class and the history functions.
- `KivyGame`: the widget class, plus the pure functions that specify it.

Several things become parameters:

- the clock reading (`now`) and the keys held down (`Keys`);
- the pixel-mask collision test (`maskHit`);
- the image sizes (`Size`).

The random choice of the shooting alien is a nondeterministic pick of any alien.

Properties proved about the pygame version:

- Each alien drifts back and forth and never moves more than 76 px from its spawn
  point. Its move counter stays within 77 of zero.
- An explosion shows each of its five frames for three updates. It is removed by
  exactly its 15th update.
- Every second of the countdown needs more than 1000 ms on the clock. So play
  starts no sooner than 3003 ms after a new game.
- No volley takes the number of live alien bullets past the cap.
- The manager's invariant survives every tick. The invariant ties the state to
  the `game_over` code, keeps the countdown in range and keeps the bullet cap.
  The score never exceeds 10 points per alien destroyed.
- Whatever the player types, the name stays at most 15 letters and digits.

Properties proved about the Kivy version:

- A frame keeps the widget's invariant. Nothing ever adds an alien bullet, so
  the player keeps full health and the game can be won but never lost.
- Each kill is worth exactly 100 points, so the score plus 100 per remaining
  alien is always 2500.
- Each bullet destroys at most the first alien within reach.
- Once any alien is within 50 px of a side, the formation only drops and never
  moves sideways again (see Findings).

## Model

| member | source | states |
|---|---|---|
| `Geometry.Centered` | sprites.py:127-128 | `rect.center = [x, y]` on an image's rect: the centre is the requested point (floor division) and the size is the image's |
| `Geometry.Rect.MovedX` | sprites.py:64 | `rect.x += dx` changes x only |
| `Geometry.Rect.MovedY` | sprites.py:140 | `rect.y += dy` changes y only |
| `Config.ExplosionSize` | config.py:35-39 | explosion sizes 1, 2, 3 are squares of 20, 40 and 160 px |
| `Groups.Added` | sprites.py:74 | `group.add(x)`: x is a member afterwards, nothing else joins, a new member goes at the end, no duplicates arise |
| `Groups.Without` | sprites.py:91 | `kill()` seen from a group: x leaves, every other member stays, the group shrinks by exactly one when x was in it |
| `Groups.Kept` | sprites.py:143-148 | the members left after each may `kill()` itself: members of the group, never more of them than it had |
| `Groups.KeptMembers` | sprites.py:143-148 | in a group without repeats, member k is left exactly when its flag is clear, and no repeats arise |
| `Groups.KeptStep` | sprites.py:143-148 | the group part way through `group.update()`: one more `kill()` (or none) turns the survivors-so-far plus the untouched rest into the same shape one member on |
| `Groups.Count` | sprites.py:234-238 | the number of set flags; 0 exactly when none is set |
| `Sprites.ShipX` | sprites.py:62-68 | LEFT moves 8 px left only while the left edge is right of 0; RIGHT moves 8 px right only while the right edge is left of 600; with both keys away from the edges the ship stays put; any move implies its key; the ship never overshoots an edge by a whole step |
| `Sprites.ShipXBothKeys` | sprites.py:62-68 | with both keys held, the move is the LEFT move followed by the RIGHT move from the box LEFT left |
| `Sprites.Spaceship.constructor` | sprites.py:16-37 | a ship centred on (x, y) with full health, its shot clock at `now` |
| `Sprites.Spaceship.Update` | sprites.py:42-94 | the box moves by `ShipX` and y never changes; a shot (one new bullet at the top centre, `last_shot := now`) exactly when SPACE is held and more than 500 ms passed; returns -1, adds one size-3 explosion at the centre and leaves its group exactly when health is at most 0, otherwise returns 0 and adds nothing |
| `Sprites.Untouched` | sprites.py:147 | `spritecollide(bullet, aliens, True)` removes exactly the aliens whose boxes the bullet overlaps, all at once |
| `Sprites.Bullet.constructor` | sprites.py:115-128 | a bullet centred on (x, y) |
| `Sprites.Bullet.Update` | sprites.py:130-155 | the bullet rises 5 px; it strikes exactly when it overlaps some alien; every overlapped alien is removed; the bullet leaves its group on a strike or once its bottom edge is above the top of the screen (bottom < 0); a strike adds one size-2 explosion at its centre and reports one hit, which scores once |
| `Sprites.DriftStep` | sprites.py:184-193 | x moves by the current direction; the direction reverses exactly when \|counter+1\| > 75; the counter is then multiplied by the NEW direction, otherwise incremented; the reachable counter range is preserved |
| `Sprites.WalkOkStep` | sprites.py:184-193 | the relation between offset from spawn, counter and direction is preserved by an update |
| `Sprites.DriftBounded` | sprites.py:180-193 | after any number of updates, the direction is ±1, \|counter\| ≤ 77 and the alien is at most 76 px from its spawn |
| `Sprites.Alien.constructor` | sprites.py:164-182 | an alien centred on (x, y), counter 0, direction `ALIEN_MOVE_SPEED` |
| `Sprites.Alien.Update` | sprites.py:184-193 | the alien's (x, counter, direction) takes one `DriftStep`; y and size unchanged; the reachable-state invariant is kept |
| `Sprites.Wound` | sprites.py:237-238 | every ship in the group loses exactly one health point, even below zero |
| `Sprites.StrikesIsHitsShip` | sprites.py:234-236 | a bullet meets some ship of the group exactly when its mask meets one of the ships' boxes |
| `Sprites.AlienBullet.constructor` | sprites.py:202-215 | an alien bullet centred on (x, y) |
| `Sprites.AlienBullet.Update` | sprites.py:217-245 | the bullet falls 2 px; on a mask hit every ship loses exactly one health point, one size-1 explosion is added at the bullet and the bullet leaves its group; it also leaves once its top is below 800 |
| `Sprites.AnimStep` | sprites.py:281-290 | the frame index never decreases, advances by at most one, stays in [0, 4], and advances exactly when the count reaches 3 before the last frame, restarting the count; no explosion finishes on the update that first shows the last frame |
| `Sprites.AnimClosedForm` | sprites.py:281-294 | after n updates a new explosion shows frame n / 3 with count n % 3, then holds the last frame |
| `Sprites.ExplosionLifetime` | sprites.py:287-294 | a new explosion is removed by exactly its 15th update and is live before that |
| `Sprites.Explosion.constructor` | sprites.py:254-279 | an explosion of size class 1 to 3 centred on (x, y), at frame 0 with count 0 |
| `Sprites.Explosion.Update` | sprites.py:281-294 | the animation takes one `AnimStep`; the explosion leaves its group exactly when done; other members stay |
| `GameManagement.OutcomeCode` | game_manager.py:20 | `game_over` is 0 in the menu or while playing, 1 after a victory, -1 after a defeat |
| `GameManagement.CountdownTick` | game_manager.py:115-121 | the countdown drops by exactly one, recording `now`, exactly when it is positive and more than 1000 ms passed; otherwise nothing changes; it never goes negative |
| `GameManagement.CountdownPacing` | game_manager.py:115-121 | over any run of ticks, each second counted off needs more than 1000 ms after the previous one, the count stays in [0, start], and the last count is a supplied clock reading |
| `GameManagement.CountdownTakesThreeSeconds` | game_manager.py:98-99 | a countdown started at a new game reaches 0 only at a reading at least 3003 ms later |
| `GameManagement.SpawnGrid` | game_manager.py:76-81 | the 25 spawn points are distinct, on screen, 100 px apart in a row and 70 px apart between rows |
| `GameManagement.GridIndex` | game_manager.py:78-80 | the nested loops place (row, col) as the (row·5+col)-th alien at (100+col·100, 100+row·70) |
| `GameManagement.FormationStaysOnScreen` | game_manager.py:76-81 | every alien's centre stays strictly inside the screen horizontally however long it drifts |
| `GameManagement.Spared` | sprites.py:147 | the aliens left after the bullets, at the given boxes, each remove every alien they overlap in turn: members of the formation, never more of them, without repeats |
| `GameManagement.Scorers` | sprites.py:147-155 | the bullets that struck, in group order: each is one of the bullets |
| `GameManagement.SparedMembers` | sprites.py:147 | an alien survives the bullet group exactly when no bullet box overlaps it, whatever the order of the bullets |
| `GameManagement.ScorersMembers` | sprites.py:147-155 | a bullet is among the scorers exactly when its box overlaps an alien the bullets before it left alive |
| `GameManagement.ScorersCount` | sprites.py:147-155 | each scoring bullet takes at least one alien, and nobody scores exactly when no alien dies |
| `GameManagement.ScorersDistinct` | sprites.py:147-155 | no bullet scores twice |
| `GameManagement.DeathHasScorer` | sprites.py:147-155 | an alien that died was overlapped by a bullet that struck |
| `GameManagement.BulletsVersusAliens` | sprites.py:147-155 | the order-free outcome of one volley: an alien survives exactly when no bullet overlaps it; each scorer overlaps an alien that died and each death has an overlapping scorer; scorers and deaths are counted consistently |
| `GameManagement.VolleyScore` | game_manager.py:200-203 | a volley scores at most 10 points per alien it kills, and the score never falls |
| `GameManagement.GameManager.constructor` | game_manager.py:16-39 | a new manager is in the menu with score 0, `game_over` 0, a full countdown, empty groups and no ship |
| `GameManagement.GameManager.CreateAliens` | game_manager.py:76-81 | appends exactly 25 new aliens, the k-th at spawn point k, earlier members kept, no duplicates |
| `GameManagement.GameManager.CreateSpaceship` | game_manager.py:83-86 | one new full-health ship at (300, 700) added to its group |
| `GameManagement.GameManager.ClearRound` | game_manager.py:97-107 | `game_over` 0, a full countdown from `now`, the alien cooldown restarted, all five groups empty |
| `GameManagement.GameManager.StartNewGame` | game_manager.py:88-113 | score 0, the given name, a full countdown, empty bullet and explosion groups, exactly 25 new aliens at their spawn points, one new ship with full health, state playing, invariant established |
| `GameManagement.GameManager.UpdateCountdown` | game_manager.py:115-121 | the countdown takes one `CountdownTick` at `now` |
| `GameManagement.GameManager.UpdateAlienShooting` | game_manager.py:123-136 | exactly when the cooldown has passed, fewer than 5 alien bullets are live and an alien exists: one new alien bullet at the bottom centre of some alien, `last_alien_shot := now`; otherwise nothing changes |
| `GameManagement.GameManager.AddScore` | game_manager.py:188-190 | the score grows by exactly `points` |
| `GameManagement.GameManager.HandleBulletCollision` | game_manager.py:200-205 | each bullet hit scores exactly 10 |
| `GameManagement.GameManager.StepBullet` | sprites.py:130-155 | one bullet's update in the group: it rises 5 px; it strikes exactly when it overlaps a live alien; exactly the aliens it overlaps leave; it leaves on a strike or above the screen; a strike scores exactly 10 and adds one size-2 explosion at its centre |
| `GameManagement.GameManager.FlyBullets` | game_manager.py:178 | `bullet_group.update(...)` as the loop over the group: every bullet rises 5 px, and the groups, the scorers and the score after the last bullet are those the volley predicates give |
| `GameManagement.GameManager.PlayerTurn` | game_manager.py:178 | the player-bullet volley of a tick, with the alien bullets, the ships and the aliens' drift states left alone |
| `GameManagement.GameManager.UpdateBulletGroup` | game_manager.py:178 | every bullet rises 5 px; the aliens left are exactly those no bullet box overlaps; the bullets left are exactly those that neither struck nor left the top; each scorer overlaps a dead alien and each dead alien a scorer; the score grows by exactly 10 per scorer; no strike exactly when no alien died |
| `GameManagement.GameManager.UpdateAlienGroup` | game_manager.py:179 | every alien takes one `DriftStep`, keeping its y, size and invariant |
| `GameManagement.GameManager.UpdateAlienBulletGroup` | game_manager.py:180 | every alien bullet falls 2 px; a bullet strikes exactly when its new box meets a ship's mask; the bullets left are exactly those that neither struck nor fell below 800; every ship loses exactly one health point per striking bullet, its box and last shot kept |
| `GameManagement.GameManager.DropBullets` | game_manager.py:180 | the loop over the alien bullets: each falls 2 px and the strikes, removals and health losses are those `Falling` records |
| `GameManagement.GameManager.AlienTurn` | game_manager.py:179-180 | the aliens drift, then the alien bullets fall, with the same outcome as `UpdateAlienBulletGroup` on the alien bullets as they were, and the player bullets untouched |
| `GameManagement.GameManager.UpdateExplosionGroup` | game_manager.py:172 | every explosion takes one `AnimStep`; exactly the unfinished ones remain |
| `GameManagement.GameManager.UpdateSpriteGroups` | game_manager.py:176-180 | bullets, then aliens, then alien bullets: the volley outcome of `UpdateBulletGroup` (survivors, kept bullets, 10 per scorer), every surviving alien drifted one step and still sound, the alien-bullet outcome of `UpdateAlienBulletGroup` (strikes by mask, one health point each) |
| `GameManagement.GameManager.SpriteTurn` | game_manager.py:176-180 | what the rest of the tick uses: every old player bullet rose 5 px, the score grew by at most 10 per alien killed, every alien left drifted one step and stays sound, alien bullets only left, and ships kept their box and last shot |
| `GameManagement.GameManager.ShipTick` | game_manager.py:157-160 | the ship moves by `ShipX` and fires exactly when SPACE is held past the cooldown (one new bullet at its top centre); out of health it leaves its group in a size-3 explosion; its status becomes `game_over`, and -1, exactly when health is at most 0, switches the state to game over |
| `GameManagement.GameManager.Fight` | game_manager.py:155-163 | the ship, then the groups, run in the same tick even when the ship has just died; the state becomes game over exactly when the ship had no health left; old bullets rose 5 px, surviving aliens drifted once, the ship moved by `ShipX`; when the cooldown allowed, its shot clock is `now` and it fired a new bullet from the top centre of its new box, which already rose 5 px in the same tick; the invariant is kept |
| `GameManagement.GameManager.PlayTick` | game_manager.py:145-166 | with no aliens left the game is won and no sprite changes: the groups, every bullet's box, the ship's box, health and last shot; otherwise the ship and groups run as in `Fight`, including the new bullet; `last_alien_shot` becomes `now` exactly when the alien volley's guard holds; old explosions stay |
| `GameManagement.GameManager.EveryTick` | game_manager.py:168-172 | the countdown takes one `CountdownTick`; every explosion in the group when it is called takes one `AnimStep` and stays exactly while its animation is not done |
| `GameManagement.GameManager.UpdateGameLogic` | game_manager.py:138-174 | while the countdown is positive nothing but the countdown and the explosions changes: groups, every alien's state and box, every bullet's box, the ship's box, health and last shot; once it is zero a victory freezes the sprites likewise, otherwise the ship and groups run as in `Fight`, including the new bullet, and `last_alien_shot` becomes `now` exactly when the alien volley's guard holds; every explosion present at the start of the tick takes one `AnimStep` and stays exactly while not done; the result equals `game_over`; the invariant is kept |
| `GameManagement.GameManager.PlayerHealth` | game_manager.py:232-236 | the ship's remaining health, 0 without a ship |
| `GameManagement.GameManager.ResetGame` | game_manager.py:217-230 | back to the menu with `game_over` 0, a full countdown and all groups empty; score and name unchanged |
| `UiManagement.EntryStep` | ui_manager.py:186-208 | start exactly on RETURN while active, which deactivates the field; BACKSPACE drops the last character (nothing on an empty name); other keys append alphanumeric text while the name is under 15; inactive keys only react to TAB; a click activates exactly inside the field |
| `UiManagement.NameStaysValid` | ui_manager.py:196-198 | over any run of single-character events, a name stays at most 15 letters and digits |
| `UiManagement.InactiveFieldIgnoresTyping` | ui_manager.py:188-200 | while inactive, key events other than TAB leave the name and focus alone |
| `UiManagement.UiManager.constructor` | ui_manager.py:19-22 | empty name, field inactive, a 200x30 field centred horizontally below the middle |
| `UiManagement.UiManager.HandleInputEvents` | ui_manager.py:186-208 | the field and the returned flag follow `EntryStep` |
| `UiManagement.Reverse` | ui_manager.py:89 | `[::-1]`: same length, element i is element \|s\|-1-i |
| `UiManagement.RecentFirst` | ui_manager.py:89 | `last_history[-3:][::-1]`: at most the last 3 entries, newest first |
| `UiManagement.Seconds` | ui_manager.py:94 | `max(0, ms // 1000)`: whole seconds, 0 for anything under a second |
| `UiManagement.Shown` | ui_manager.py:90-94 | missing name, result, score and duration default to "Unknown", "n/a", 0 and 0 |
| `UiManagement.NatText` | ui_manager.py:95 | `str(n)`: decimal digits without a leading zero |
| `UiManagement.NatTextValue` | ui_manager.py:95 | reading the digits of `str(n)` back gives n |
| `UiManagement.NumeralIsNatText` | ui_manager.py:95 | digits with no leading zero are `str` of their value, so `NatText`'s contract fixes its text |
| `UiManagement.SignedNumeralIsIntText` | ui_manager.py:95 | any integer numeral written as `str` writes them is `IntText` of its value, so `IntText`'s contract fixes its text |
| `UiManagement.IntText` | ui_manager.py:95 | `str(i)`: a leading minus exactly for a negative score, then decimal digits with no leading zero; reading the text back gives i |
| `UiManagement.LineText` | ui_manager.py:95 | the line is the name, " - ", the result, " - score ", the score as `str` writes it, " - ", the seconds as `str` writes them and "s" |
| `UiManagement.MenuHistory` | ui_manager.py:86-96 | no lines without history; otherwise one line per shown entry, newest first |
| `KivyGame.RemoveFirst` | main_kivy.py:237 | `list.remove(v)`: one element fewer when v is present, nothing new appears |
| `KivyGame.RemoveFirstAfter` | main_kivy.py:237 | removing the first occurrence of v right after a prefix free of v leaves prefix and suffix |
| `KivyGame.FormationLayout` | main_kivy.py:186-193 | the 25 spawn points are distinct and clear of both edges |
| `KivyGame.March` | main_kivy.py:244-261 | at an edge (x ≤ 50 or x ≥ 550 for some alien) the direction flips and everybody drops 20 with no sideways move; otherwise everybody shifts by the direction |
| `KivyGame.FormationPinnedAtEdge` | main_kivy.py:248-258 | once an alien is at an edge, n more steps only drop the formation 20·n and flip the direction each time |
| `KivyGame.PinnedExample` | main_kivy.py:248-258 | an alien at x = 550 drops twice and never moves sideways |
| `KivyGame.IntendedMarch` | main_kivy.py:248-261 | the corrected step: it reverses only at the side the formation is heading for |
| `KivyGame.IntendedMarchLeavesEdge` | main_kivy.py:248-261 | with the corrected test, the step after a drop moves the whole formation one pixel back from the edge |
| `KivyGame.SurvivorsStep` | main_kivy.py:233-238 | one iteration over the copy: overwriting the element and removing it when it died yields the survivors so far followed by the untouched rest |
| `KivyGame.SurvivorsMembers` | main_kivy.py:233-238 | every survivor is the step of some element, and every element whose step is alive survives |
| `KivyGame.Flown` | main_kivy.py:233-238 | no bullet left is above the screen |
| `KivyGame.FlownKeepsOnScreen` | main_kivy.py:233-238 | each bullet left rose exactly 5 px from one before, and exactly the bullets still on screen after rising remain |
| `KivyGame.Fallen` | main_kivy.py:263-268 | no alien bullet left is below 0, and none appears |
| `KivyGame.FallenKeepsOnScreen` | main_kivy.py:263-268 | each alien bullet left fell exactly half a bullet step from one before, and exactly the bullets still at or above 0 after falling remain |
| `KivyGame.Faded` | main_kivy.py:270-275 | every explosion left has positive life |
| `KivyGame.FadedKeepsLiving` | main_kivy.py:270-275 | each explosion left lost exactly one life, and exactly those with life above 1 remain |
| `KivyGame.FirstNear` | main_kivy.py:280-282 | the first alien in list order within 30 px on both axes |
| `KivyGame.FirstNearUnique` | main_kivy.py:280-289 | a search that stops at the first alien within reach finds `FirstNear` |
| `KivyGame.Hit` | main_kivy.py:280-289 | one bullet against the aliens: with no alien within reach nothing changes; otherwise the bullet and the first alien within reach are removed, the score rises 100 and a life-10 explosion appears where the alien was |
| `KivyGame.VolleyStep` | main_kivy.py:279-289 | one more bullet of the loop over the copy applies `Hit` |
| `KivyGame.HitAccounting` | main_kivy.py:280-289 | one bullet destroys at most one alien, and each kill adds exactly 100 points and one life-10 explosion |
| `KivyGame.VolleyAccounting` | main_kivy.py:279-289 | over all bullets: at most one alien per bullet, 100 points and one life-10 explosion per kill, and no alien or bullet appears |
| `KivyGame.Struck` | main_kivy.py:292-298 | the player loses exactly one health point per alien bullet within 30 px on both axes; every health point lost adds exactly one life-15 explosion on the player after the existing ones; with no alien bullets nothing changes |
| `KivyGame.StrikeCount` | main_kivy.py:293-294 | the number of alien bullets within reach, at most their number |
| `KivyGame.Missed` | main_kivy.py:292-298 | the alien bullets that miss, in order: exactly the bullets out of reach, one fewer per strike |
| `KivyGame.StruckLeavesMisses` | main_kivy.py:292-298 | after the loop over its copy, the alien bullets left are exactly the misses, in order, the health fell by the strikes and one explosion was added per strike |
| `KivyGame.AlienPhase` | main_kivy.py:240-261 | the timer stays in [0, 59]; every 60th call resets it and applies `March` |
| `KivyGame.Judge` | main_kivy.py:300-309 | health ≤ 0 means game over, checked before victory, which needs no aliens; nothing else changes |
| `KivyGame.CollideKeepsWorldOk` | main_kivy.py:277-298 | the collision checks keep the widget's invariant |
| `KivyGame.TickKeepsWorldOk` | main_kivy.py:210-231 | a frame keeps the invariant: full health, never game over, score + 100 per alien left = 2500, all bullets on screen, explosion lives in (0, 15] |
| `KivyGame.FinishedGameIsFrozen` | main_kivy.py:212-213 | a frame changes nothing unless the game is being played |
| `KivyGame.GameWidget.constructor` | main_kivy.py:169-181 | score 0, health 3, playing, the player at (300, 100), empty lists, direction 1, timer 0 and a full formation; the invariant holds |
| `KivyGame.GameWidget.InitAliens` | main_kivy.py:186-193 | exactly 25 aliens, the k-th at (100+(k%5)·80, 600-(k/5)·60) |
| `KivyGame.GameWidget.StartGame` | main_kivy.py:195-204 | the name, score 0, health 3, playing, empty bullet, alien-bullet and explosion lists, a fresh formation; the player, direction and timer carry over |
| `KivyGame.GameWidget.UpdateBullets` | main_kivy.py:233-238 | the bullets become `Flown` of the old ones |
| `KivyGame.GameWidget.UpdateAliens` | main_kivy.py:240-261 | the formation, direction and timer take one `AlienPhase` |
| `KivyGame.GameWidget.UpdateAlienBullets` | main_kivy.py:263-268 | the alien bullets become `Fallen` of the old ones |
| `KivyGame.GameWidget.UpdateExplosions` | main_kivy.py:270-275 | the explosions become `Faded` of the old ones |
| `KivyGame.GameWidget.FindTarget` | main_kivy.py:280-282 | the inner loop stops at the first alien within reach, or at the end |
| `KivyGame.GameWidget.ShootAliens` | main_kivy.py:279-289 | the player-bullet loop over a copy of the bullets computes `Volley` |
| `KivyGame.GameWidget.HitPlayer` | main_kivy.py:292-298 | the alien-bullet loop over a copy computes `Struck` |
| `KivyGame.GameWidget.CheckCollisions` | main_kivy.py:277-298 | player bullets against aliens, then alien bullets against the player |
| `KivyGame.GameWidget.CheckGameOver` | main_kivy.py:300-309 | the state takes one `Judge` |
| `KivyGame.GameWidget.Update` | main_kivy.py:210-231 | a frame is the six steps in order and keeps the invariant |
| `KivyGame.GameWidget.OnTouchMove` | main_kivy.py:311-318 | while playing, a touch left of the middle moves the player 8 px left but not past 50, anywhere else 8 px right but not past 550; otherwise nothing moves |
| `KivyGame.GameWidget.OnTouchDown` | main_kivy.py:320-324 | while playing, one bullet appended 30 px above the player; otherwise nothing |

## Left out

- Drawing and layout are not modelled: the health bar, every `draw_*` method, `GameWidget.draw`, the menu's text positions and the fonts.
- Asset and sound loading are not modelled: images, `_load_sounds`, `load_background` and every sound played. Image sizes are parameters.
- The pygame clock and keyboard become parameters: `now` and `Keys`.
- The pixel-mask collision of alien bullets with the ship is the caller's `maskHit`.
- `random.choice` of the shooting alien is any alien. The random alien image is cosmetic.
- `_update_score` is an empty method, so it is not modelled.
- The Python sprite `update` methods receive the groups and change them in place. Here they receive the groups as sequences and return the updated ones, which the manager stores back. Aliasing between groups is not modelled.
- The `GameManager` methods stay at the level of the groups. How one player bullet's removal interleaves with the group iteration that is already running is not modelled.
- `GameManagement.GameManager.UpdateGameLogic`, `GameManagement.GameManager.PlayTick`, `GameManagement.GameManager.Fight`: the alien bullet of the volley is stated only by `GameManagement.GameManager.UpdateAlienShooting` (its spawn box under some alien); the tick-level contracts state the volley's clock but not that bullet's same-tick fall.
- `GameManagement.GameManager.UpdateGameLogic`: explosions created during the tick, by a killed alien or a dead ship, are stepped by the same tick's explosion update in the source; the contract states the `AnimStep` only for explosions present at the start of the tick, and says of the new ones only that they are fresh.
- `GameManagement.GameManager.SpriteTurn`, `GameManagement.GameManager.Fight`, `GameManagement.GameManager.PlayTick`, `GameManagement.GameManager.UpdateGameLogic`: after the sprite groups' turn these state bounds, not the new state. They leave out which aliens survive, which player bullets stay, the exact score (10 points per bullet that struck), each alien bullet's 2 px fall and whether it stays, and each ship's health loss (one point per alien bullet that met its mask). All of these are stated by `GameManagement.GameManager.UpdateSpriteGroups`, through `GameManagement.VolleyDone` and `GameManagement.Rained`. Carrying them up through the four callers' contracts makes their proofs exceed the solver budget, so the model does not repeat them there.
- `UiManagement.IsAlnumChar` accepts ASCII letters and digits only. Python's `str.isalnum` also accepts other Unicode letters and digits.
- `UiManagement.NameStaysValid`: assumes each key event types at most one character, as pygame delivers them. A multi-character `unicode` could take the name past 15.
- History entries hold integer scores and durations. A float duration, or a score of another type, is not modelled.
- The history ledger itself is not modelled: reading it, appending to it and saving it as JSON. Only the menu's selection and wording are modelled.
- `main.py` (the pygame event loop) is not part of this model.
- The Kivy screens and app are not modelled: `MenuScreen`, `GameOverScreen`, `SpaceInvadersApp`, and the screen switch and `set_score` call in `check_game_over`.
- The Kivy `restart_game` only calls `start_game`, so it is not modelled separately.
- Kivy alien bullets are `real` coordinates. The list is never filled, so the float step is exact here.
- `KivyGame.GameWidget.OnTouchMove`: takes only the touch's x coordinate.

## Findings

| source | as written | input that shows it | evidently intended | confidence | as-written member | corrected member |
|---|---|---|---|---|---|---|
| main_kivy.py:248-258 | The formation reverses whenever any alien is within 50 px of either side. The reversal step moves nobody sideways. So the alien that caused it is still there on the next step, and the formation only drops 20 px per step and never moves sideways again. | One alien at (550, 600) moving right: two steps give (550, 560) with the direction back at +1. | Reverse only at the side the formation is heading for, so the step after a drop moves away from the edge. | medium, not executed | `KivyGame.FormationPinnedAtEdge` (`KivyGame.PinnedExample` is the concrete case) | `KivyGame.IntendedMarchLeavesEdge` (about `KivyGame.IntendedMarch`) |

`KivyGame.GameWidget.UpdateAliens` and `KivyGame.AlienPhase` keep the step as
written, so that the widget model matches the code line for line. `KivyGame.IntendedMarch`
is the corrected step, with its property proved, ready to take its place.
