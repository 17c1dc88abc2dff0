# Alien Invasion game rules in Dafny

This project models the rule logic of the arcade game in
`01_alien_invasion/alien_invasion.py`: a ship fires bullets at a fleet of
aliens that sweeps sideways and drops a step each time it reaches a screen
edge. The model is a pure state machine over an immutable `World` record.
The record holds ships left, whether a game is running, the fleet
direction, the aliens and bullets as integer rectangles, the ship's four
intent flags, and whether the cursor is visible. Each rule of the game is a
function from a `World` to a new `World`.

Modules, leaves first:

- `Geometry` — integer rectangles and points; `Overlaps` is pygame's
  `colliderect`, `ContainsPoint` its `collidepoint`.
- `Filtering` — order-preserving `Filter` over sequences. It models removal
  of sprites from a group, which keeps the others in order.
- `Game` — the `Settings` the rules read, the `Intent` flags, and `World`.
- `Fleet` — fleet layout (`_create_fleet`, `_create_alien`) and the edge
  reaction (`_check_fleet_edges`, `_change_fleet_direction`).
- `Bullets` — `_fire_bullet`, `_update_bullets`, and
  `_check_bullet_alien_collisions` with its wave-clear rule.
- `Lives` — `_ship_hit`, `_check_aliens_bottom`, `_start_game`,
  `_check_play_button`.
- `Controls` — `_check_events`: queued events, the quit and fire keys, and
  the arrow-key chain that sets the intent flags.

Code that lives in classes outside the modelled file becomes a parameter:

- `Alien.check_edges` is `atEdge: Rect -> bool`.
- `Bullet.update` is `move: Rect -> Rect`.
- The new bullet that `Bullet(self)` creates is `shot: Rect`.
- `Settings.ship_limit`, which `GameStats.reset_stats` copies into the ships
  left, is `Settings.shipLimit`.
- The row placement `h + 1.3 * h * row` is `Settings.rowY`.

Where the code behaves in ways a reader might not expect, the model
follows the code:

- **Game over.** A hit with one ship left takes the count to 0 and play
  goes on. Only a later hit, which finds no ship left, ends the game
  (`Lives.GameEndsOnlyAfterLastShip`).
- **Row spacing.** The row count divides by 1.7 alien heights, but rows are
  placed 1.3 alien heights apart.
- **Intent flags are sticky.** While any arrow is held, no flag is cleared.
  So left and right can both be set (`Controls.BothHorizontalFlagsCanBeSet`).
  The flags are not mutually exclusive per axis.
- **Collisions are sequential.** pygame's `groupcollide(bullets, aliens,
  True, True)` takes the bullets one by one. Each bullet kills the aliens
  still alive that it overlaps, and it is removed only if it overlapped one
  of them. A second bullet over an alien already killed therefore survives
  (`Bullets.SecondBulletOnSameAlienSurvives`). The order-free "two filters"
  reading is defined as `Bullets.Simultaneous`. It removes the same aliens
  (`Bullets.SequentialAgreesOnAliens`) but may remove more bullets.
- **Firing is not gated on a running game.** The space key fires whether or
  not a game is active.

## Model

| member | source | states |
|---|---|---|
| Fleet.ColsFit | 01_alien_invasion/alien_invasion.py:142-143 | The column count is the largest number of two-alien-wide slots that fit in the screen width less two alien widths, and zero when that width is negative |
| Fleet.RowsFit | 01_alien_invasion/alien_invasion.py:146-148 | The row count is the largest number of 1.7-alien-high rows that fit in the height less four alien heights and the ship, and zero when that height is negative |
| Fleet.AlienSpacing | 01_alien_invasion/alien_invasion.py:127-134 | The next column starts one alien width to the right of an alien's right edge, and aliens of the same row in different columns never overlap |
| Fleet.NewFleet | 01_alien_invasion/alien_invasion.py:136-153 | The new fleet is empty exactly when no row or no column fits |
| Fleet.FleetLayout | 01_alien_invasion/alien_invasion.py:127-153 | A new fleet has exactly Rows × Cols aliens; an alien is in it exactly when it is the alien of some cell (r, c), at x = w + 2w·c and at row r's placement, with the alien's size |
| Fleet.FleetOrder | 01_alien_invasion/alien_invasion.py:150-153 | For every row r and column c of the layout, the alien of cell (r, c) is at position r · Cols + c of the new fleet: rows top first, each row left to right, whatever the row placements are |
| Fleet.FleetInsideScreen | 01_alien_invasion/alien_invasion.py:131-143 | Every alien of a new fleet starts at least one alien width from the left edge and two from the right |
| Fleet.ExampleLayout | 01_alien_invasion/alien_invasion.py:136-153 | On an 800×600 screen with 40×40 aliens and a 60-high ship: 720 pixels give 9 columns, 380 pixels give 5 rows, 45 aliens |
| Fleet.BuildFleet | 01_alien_invasion/alien_invasion.py:150-153 | The nested row/column loops build exactly the new fleet, whose order `Fleet.FleetOrder` fixes |
| Fleet.ChangeFleetDirection | 01_alien_invasion/alien_invasion.py:177-181 | Every alien drops by the drop speed with x and size unchanged, the direction is negated, and nothing else changes |
| Fleet.ChangeTwice | 01_alien_invasion/alien_invasion.py:177-181 | Changing direction twice restores the direction and leaves the fleet two drop steps lower |
| Fleet.DropDrop | 01_alien_invasion/alien_invasion.py:179-180 | Two drops of the fleet are one drop by their sum |
| Fleet.ScanFleetEdges | 01_alien_invasion/alien_invasion.py:170-175 | The scan that stops at the first alien at an edge changes direction exactly once if some alien is at an edge, however many are, and otherwise returns the state unchanged |
| Bullets.FireBullet | 01_alien_invasion/alien_invasion.py:110-114 | Exactly one bullet is appended iff fewer than bulletsAllowed are alive, otherwise nothing changes; a count within the cap stays within it |
| Bullets.CullKeepsExactlyOnScreen | 01_alien_invasion/alien_invasion.py:120-123 | The cull keeps exactly the bullets whose bottom is below the top of the screen, in their original order (it distributes over concatenation) and is idempotent |
| Bullets.CullBullets | 01_alien_invasion/alien_invasion.py:121-123 | Walking the bullets and dropping those with bottom <= 0 yields the order-preserving cull |
| Bullets.MoveAll | 01_alien_invasion/alien_invasion.py:119 | Each bullet is replaced by its moved self, one for one |
| Bullets.Advance | 01_alien_invasion/alien_invasion.py:116-123 | Exactly the moved bullets whose bottom is below the top of the screen are kept: every kept bullet is on screen and the moved image of a bullet before the move, every moved bullet on screen is kept, and the count never grows |
| Bullets.GroupCollideAliens | 01_alien_invasion/alien_invasion.py:186 | An alien survives the collision pass exactly when no bullet overlaps it, in its original order |
| Bullets.GroupCollideBullets | 01_alien_invasion/alien_invasion.py:186 | A bullet survives the pass exactly when, at its turn, it overlaps none of the aliens the bullets before it left alive; survivors keep their order |
| Bullets.UnhitCons | 01_alien_invasion/alien_invasion.py:186 | The aliens left by a first bullet and then the rest are the aliens no bullet of the whole group overlaps |
| Bullets.GroupCollideShrinks | 01_alien_invasion/alien_invasion.py:186 | Surviving bullets and aliens are sub-multisets of the originals; neither group grows |
| Bullets.GroupCollideApart | 01_alien_invasion/alien_invasion.py:186 | After the pass no surviving bullet overlaps a surviving alien |
| Bullets.GroupCollideKeepsMisses | 01_alien_invasion/alien_invasion.py:186 | A bullet that overlaps no alien at all survives the pass |
| Bullets.SequentialAgreesOnAliens | 01_alien_invasion/alien_invasion.py:186 | The sequential pass and the two-filter reading leave the same aliens, and the sequential pass keeps every bullet the two-filter reading keeps |
| Bullets.SecondBulletOnSameAlienSurvives | 01_alien_invasion/alien_invasion.py:186 | Whenever two bullets both overlap a lone alien, the first kills it and the second survives |
| Bullets.TwoFilterReadingDropsBothBullets | 01_alien_invasion/alien_invasion.py:186 | In that situation the two-filter reading removes both bullets and the alien |
| Bullets.CheckCollisions | 01_alien_invasion/alien_invasion.py:183-191 | While aliens survive, they are those no bullet overlaps and the bullets are those that at their turn hit no live alien, so every bullet that overlaps no alien stays; when none survive, the bullets are emptied and a new full fleet appears; no surviving bullet overlaps a surviving alien; nothing else changes |
| Bullets.UpdateBullets | 01_alien_invasion/alien_invasion.py:116-125 | The collision pass runs on the moved bullets that stay on screen: while aliens survive, they are those no such bullet overlaps and the bullets are those that at their turn hit no live alien; when none survive, the wave is replaced and the bullets emptied; every bullet left is a moved original on screen and the count never grows |
| Lives.ShipHit | 01_alien_invasion/alien_invasion.py:202-217 | With ships left, one is spent, bullets are emptied, a new fleet appears and the active flag is kept; with none left, only the game is deactivated and the cursor shown; ships never go negative and the fleet direction is never reset |
| Lives.GameOverIsIdempotent | 01_alien_invasion/alien_invasion.py:215-217 | A hit with no ship left, repeated, changes nothing more |
| Lives.GameEndsOnlyAfterLastShip | 01_alien_invasion/alien_invasion.py:204-217 | From n ships left in a running game, n hits spend them all with play going on; only hit n + 1 ends the game |
| Lives.LastShipScenario | 01_alien_invasion/alien_invasion.py:204-217 | With one ship left a hit leaves 0 ships and the game running; the next hit ends it and shows the cursor |
| Lives.ScanAliensBottom | 01_alien_invasion/alien_invasion.py:193-200 | The scan that stops at the first alien on the bottom takes exactly one hit if any alien is there, however many are, and otherwise returns the state unchanged |
| Lives.StartGame | 01_alien_invasion/alien_invasion.py:91-106 | Afterwards the game is active, ships left equal the ship limit, bullets are empty, the aliens are a new full fleet, the cursor is hidden; fleet direction and intent flags are kept |
| Lives.StartGameIdempotent | 01_alien_invasion/alien_invasion.py:91-106 | Starting twice is starting once |
| Lives.CheckPlayButton | 01_alien_invasion/alien_invasion.py:85-89 | Afterwards the game is active iff it was or the click is inside the button; any change is a start from an inactive game by a click inside the button, with ships reset, bullets emptied, a new fleet and the cursor hidden; fleet direction and flags are kept |
| Controls.Steer | 01_alien_invasion/alien_invasion.py:59-83 | With no arrow held all four flags clear; otherwise the priority chain equals the per-axis reading (right beats left, up beats down, winners set, other flags kept) |
| Controls.FlagsOnlyRiseWhileArrowHeld | 01_alien_invasion/alien_invasion.py:59-83 | While an arrow is held no flag is cleared, and a newly set flag belongs to a held key that wins its axis |
| Controls.BothHorizontalFlagsCanBeSet | 01_alien_invasion/alien_invasion.py:59-83 | Holding left, then also right, leaves both horizontal flags set |
| Controls.EventsExitIffQuit | 01_alien_invasion/alien_invasion.py:41-43 | The event loop exits exactly when a close request is queued |
| Controls.AfterEvent | 01_alien_invasion/alien_invasion.py:44-48 | After one non-quit event the game is active iff it was or the event is a click inside the button or another event with P held; the only possible change is a start from an inactive game |
| Controls.ProcessEvents | 01_alien_invasion/alien_invasion.py:41-48 | While a game runs, the events exit or change nothing; otherwise they leave the state as it was or started once |
| Controls.StartNeedsTrigger | 01_alien_invasion/alien_invasion.py:44-48 | An inactive game becomes active only if a click inside the button or, with P held, another event is queued |
| Controls.TriggerStarts | 01_alien_invasion/alien_invasion.py:44-48 | An inactive game with a start trigger queued and no close request is started |
| Controls.CheckEvents | 01_alien_invasion/alien_invasion.py:37-83 | The pass exits iff Q is held or a close request is queued; otherwise the flags follow the arrow chain, an inactive game is started exactly when a trigger is queued, and space then fires whether or not a game runs; in a running game only the fire key and the flags change the state |

## Left out

- Window and rendering: display setup in `__init__`, `_update_screen`,
  `Button` drawing and `pygame.display.flip` draw the state and change none
  of it.
- The main loop `run_game` and `_update_aliens`. They sequence the
  modelled rules with the ship's, aliens' and bullets' own motion, which
  live in classes outside this file.
- The ship–alien collision in `_update_aliens`
  (`spritecollideany(self.ship, self.aliens)`, which calls `_ship_hit`).
  The ship's rectangle is not modelled, so this second way to lose a ship
  is absent; `Lives.ShipHit` models what such a hit does.
- `sleep(2)` after a hit and `ship.center_ship()`. Neither changes the
  modelled state. The ship's position and its rectangle are not modelled.
- `pygame.mouse.set_visible` is recorded only as `World.cursorVisible`.
- Event polling: the key snapshot is the `Keys` argument and the queued
  events are a sequence. The click position is the event's position, where
  the code reads the current mouse position while handling that event.
  Process exit is the `Exit` outcome.
- `Fleet.Rows`: the count is taken in exact arithmetic, (10·space) div
  (17·h), where the code floor-divides by the float 1.7·h. IEEE rounding of
  1.7 may differ from this when the space is an exact multiple.
- The float row placement `h + 1.3 * h * row` and its coercion by pygame's
  Rect are left abstract as `Settings.rowY`.
- `Geometry.Overlaps`: rectangles are assumed to have non-negative sizes.
  pygame's normalisation of negative widths and heights is not modelled.
- `Game.Settings.WellFormed` requires a positive alien width and height.
  With a zero-size alien the code fails with a division by zero in
  `_create_fleet` (lines 143 and 148); that failure is not modelled.
- Score and high score are not part of this model. The modelled file does
  not touch them.
