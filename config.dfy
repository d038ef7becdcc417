/** Game constants of the pygame version (config.py). */
module Config {
  import opened Geometry

  // Display
  const SCREEN_WIDTH: int := 600
  const SCREEN_HEIGHT: int := 800
  const FPS: int := 60

  // Game
  const ROWS: int := 5
  const COLS: int := 5
  const ALIEN_COOLDOWN: int := 1000   // milliseconds between alien shots
  const COUNTDOWN_TIME: int := 3

  // Player
  const PLAYER_HEALTH: int := 3
  const PLAYER_SPEED: int := 8
  const PLAYER_COOLDOWN: int := 500   // milliseconds between player shots

  // Bullets
  const PLAYER_BULLET_SPEED: int := 5
  const ALIEN_BULLET_SPEED: int := 2
  const MAX_ALIEN_BULLETS: int := 5

  // Aliens
  const ALIEN_MOVE_DISTANCE: int := 75
  const ALIEN_MOVE_SPEED: int := 1

  // Explosions
  const EXPLOSION_SPEED: int := 3
  const EXPLOSION_FRAMES: int := 5    // exp1.png .. exp5.png

  /** EXPLOSION_SIZES: 1 small, 2 medium, 3 large. */
  function ExplosionSize(size: int): (s: Size)
    requires 1 <= size <= 3
    ensures s.w == s.h
    ensures size == 1 ==> s.w == 20
    ensures size == 2 ==> s.w == 40
    ensures size == 3 ==> s.w == 160
  {
    if size == 1 then Size(20, 20) else if size == 2 then Size(40, 40) else Size(160, 160)
  }

  // History: number of finished games the ledger keeps
  const MAX_HISTORY: int := 3
}
