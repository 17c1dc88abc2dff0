/**
 Lives and the active/inactive state: losing a ship (`_ship_hit`),
 aliens reaching the bottom (`_check_aliens_bottom`), and starting a game
 (`_start_game`, `_check_play_button`).
 */
module Lives {
  import opened Geometry
  import opened Game
  import opened Fleet

  /** `_ship_hit`. While ships remain, one is spent, the aliens and bullets
      are cleared and a new fleet is laid out, and play goes on (the ship is
      re-centred and the game pauses, neither of which changes this state).
      With no ship left the game becomes inactive and the cursor visible,
      and nothing else changes. The fleet direction is never reset. */
  function ShipHit(s: Settings, w: World): (r: World)
    requires s.WellFormed()
    ensures w.shipsLeft > 0 ==>
      && r.shipsLeft == w.shipsLeft - 1
      && r.gameActive == w.gameActive
      && r.aliens == NewFleet(s) && r.bullets == []
      && r.cursorVisible == w.cursorVisible
    ensures w.shipsLeft <= 0 ==>
      && r.shipsLeft == w.shipsLeft && !r.gameActive && r.cursorVisible
      && r.aliens == w.aliens && r.bullets == w.bullets
    ensures r.shipsLeft <= w.shipsLeft
    ensures w.shipsLeft >= 0 ==> r.shipsLeft >= 0
    ensures r.gameActive ==> w.gameActive
    ensures r.fleetDirection == w.fleetDirection && r.intent == w.intent
  {
    if w.shipsLeft > 0 then
      w.(shipsLeft := w.shipsLeft - 1, aliens := NewFleet(s), bullets := [])
    else
      w.(gameActive := false, cursorVisible := true)
  }

  /** A hit with no ship left is idempotent: hitting again changes nothing. */
  lemma GameOverIsIdempotent(s: Settings, w: World)
    requires s.WellFormed()
    requires w.shipsLeft <= 0
    ensures ShipHit(s, ShipHit(s, w)) == ShipHit(s, w)
  {
  }

  /** The ship hit `n` times in a row. */
  function Hits(s: Settings, w: World, n: nat): World
    requires s.WellFormed()
  {
    if n == 0 then w else ShipHit(s, Hits(s, w, n - 1))
  }

  /** Starting from `n` ships left in an active game, the first `n` hits
      spend them all while play goes on (the hit that takes the count to
      zero does not end the game); only hit `n + 1`, which finds no ship
      left, ends it. */
  lemma {:induction false} GameEndsOnlyAfterLastShip(s: Settings, w: World, n: nat)
    requires s.WellFormed()
    requires w.gameActive && w.shipsLeft >= 0
    requires n <= w.shipsLeft
    ensures Hits(s, w, n).shipsLeft == w.shipsLeft - n
    ensures Hits(s, w, n).gameActive
    ensures n == w.shipsLeft ==> !Hits(s, w, n + 1).gameActive && Hits(s, w, n + 1).shipsLeft == 0
  {
    if n > 0 {
      GameEndsOnlyAfterLastShip(s, w, n - 1);
    }
  }

  /** With one ship left, a hit leaves zero ships and the game running;
      the next hit ends it. */
  lemma LastShipScenario(s: Settings, w: World)
    requires s.WellFormed()
    requires w.gameActive && w.shipsLeft == 1
    ensures ShipHit(s, w).shipsLeft == 0 && ShipHit(s, w).gameActive
    ensures !ShipHit(s, ShipHit(s, w)).gameActive && ShipHit(s, ShipHit(s, w)).cursorVisible
  {
  }

  /** Some alien's bottom edge has reached the bottom of the screen. */
  predicate AnyAtBottom(s: Settings, aliens: seq<Rect>) {
    exists i :: 0 <= i < |aliens| && aliens[i].Bottom() >= s.screenHeight
  }

  /** `_check_aliens_bottom`: scan the aliens in order and at the first one
      whose bottom edge reaches the bottom of the screen take one hit and
      stop, so several aliens there still cost a single ship. */
  method ScanAliensBottom(s: Settings, w: World) returns (r: World)
    requires s.WellFormed()
    ensures AnyAtBottom(s, w.aliens) ==> r == ShipHit(s, w)
    ensures !AnyAtBottom(s, w.aliens) ==> r == w
  {
    r := w;
    var i := 0;
    while i < |w.aliens|
      invariant 0 <= i <= |w.aliens|
      invariant forall j :: 0 <= j < i ==> w.aliens[j].Bottom() < s.screenHeight
      invariant r == w
    {
      if w.aliens[i].Bottom() >= s.screenHeight {
        r := ShipHit(s, w);
        return;
      }
      i := i + 1;
    }
  }

  /** `_start_game`: the statistics are reset (ships left back to the ship
      limit), the game becomes active, the aliens and bullets are replaced
      by a new fleet and no bullets, and the cursor is hidden. The fleet
      direction and the intent flags are kept. */
  function StartGame(s: Settings, w: World): (r: World)
    requires s.WellFormed()
    ensures r.gameActive && !r.cursorVisible
    ensures r.shipsLeft == s.shipLimit
    ensures r.aliens == NewFleet(s) && r.bullets == []
    ensures r.fleetDirection == w.fleetDirection && r.intent == w.intent
  {
    w.(shipsLeft := s.shipLimit, gameActive := true, aliens := NewFleet(s),
       bullets := [], cursorVisible := false)
  }

  /** Starting depends only on the settings and on the state that survives
      it, so starting twice is starting once. */
  lemma StartGameIdempotent(s: Settings, w: World)
    requires s.WellFormed()
    ensures StartGame(s, StartGame(s, w)) == StartGame(s, w)
  {
  }

  /** `_check_play_button`: a click starts a game only when it falls inside
      the button and no game is running; any other click changes nothing. */
  function CheckPlayButton(s: Settings, button: Rect, click: Point, w: World): (r: World)
    requires s.WellFormed()
    ensures r.gameActive <==> w.gameActive || ContainsPoint(button, click)
    ensures r != w ==>
      && !w.gameActive && ContainsPoint(button, click)
      && r.shipsLeft == s.shipLimit && r.aliens == NewFleet(s) && r.bullets == []
      && !r.cursorVisible
    ensures w.gameActive || !ContainsPoint(button, click) ==> r == w
    ensures r.fleetDirection == w.fleetDirection && r.intent == w.intent
  {
    if !w.gameActive && ContainsPoint(button, click) then StartGame(s, w) else w
  }
}
