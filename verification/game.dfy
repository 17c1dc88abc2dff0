/**
 The state of one game session. The `AlienInvasion` instance of the
 original holds this state in mutable attributes; here it is one immutable
 `World` value that every rule function maps to a new one.
 */
module Game {
  import opened Geometry

  /** The configuration the rules read: screen and sprite sizes, the
      game's tuning constants, and the placement of alien rows.

      `rowY` stands for the float expression `h + 1.3 * h * row` that
      places a row, coerced to an integer by pygame's Rect; it is kept
      abstract because the coercion lives outside the modelled code. */
  datatype Settings = Settings(
    screenWidth: int,
    screenHeight: int,
    alienWidth: int,
    alienHeight: int,
    shipHeight: int,
    bulletsAllowed: int,
    fleetDropSpeed: int,
    shipLimit: int,
    rowY: nat -> int)
  {
    /** The alien sprite has a positive size: the layout divides by both
        of its dimensions and raises an error when either is zero. */
    predicate WellFormed() {
      alienWidth > 0 && alienHeight > 0
    }
  }

  /** The ship's four movement-intent flags, read by the ship's own update. */
  datatype Intent = Intent(right: bool, left: bool, up: bool, down: bool)

  const Idle := Intent(false, false, false, false)

  /** Everything the rule functions read or change.
      `fleetDirection` is +1 for rightwards, -1 for leftwards;
      `cursorVisible` records the last call to `pygame.mouse.set_visible`. */
  datatype World = World(
    shipsLeft: int,
    gameActive: bool,
    fleetDirection: int,
    aliens: seq<Rect>,
    bullets: seq<Rect>,
    intent: Intent,
    cursorVisible: bool)
}
