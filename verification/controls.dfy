/**
 One pass of `_check_events`: the queued window events, then the quit
 and fire keys, then the arrow keys that set the ship's intent flags.
 The key state is one snapshot taken before the events are read.
 */
module Controls {
  import opened Geometry
  import opened Game
  import opened Bullets
  import opened Lives

  /** The keys held down in the snapshot. */
  datatype Keys = Keys(right: bool, left: bool, up: bool, down: bool, p: bool, q: bool, space: bool)

  /** A queued window event: the window's close request, a mouse button
      press at a position, or any other event. */
  datatype Event = Quit | MouseDown(pos: Point) | OtherEvent

  /** The program either exits or carries on with a new state. */
  datatype Outcome = Exit | Running(world: World)

  predicate AnyArrow(k: Keys) {
    k.right || k.left || k.up || k.down
  }

  /** The arrow handling read axis by axis: on the horizontal axis right
      wins over left, on the vertical axis up wins over down, and the
      winner of each axis has its flag set; flags already set stay set. */
  function PerAxis(k: Keys, f: Intent): Intent {
    Intent(f.right || k.right, f.left || (k.left && !k.right),
           f.up || k.up, f.down || (k.down && !k.up))
  }

  /** The arrow handling: a chain tried in the order right+up, right+down,
      left+up, left+down, right, left, up, down, whose first match sets its
      flags; with no arrow held every flag is cleared. It is the per-axis
      reading whenever an arrow is held. */
  function Steer(k: Keys, f: Intent): (r: Intent)
    ensures !AnyArrow(k) ==> r == Idle
    ensures AnyArrow(k) ==> r == PerAxis(k, f)
  {
    if k.right && k.up then f.(right := true, up := true)
    else if k.right && k.down then f.(right := true, down := true)
    else if k.left && k.up then f.(left := true, up := true)
    else if k.left && k.down then f.(left := true, down := true)
    else if k.right then f.(right := true)
    else if k.left then f.(left := true)
    else if k.up then f.(up := true)
    else if k.down then f.(down := true)
    else Idle
  }

  /** While any arrow is held, no flag is ever cleared, and a flag that was
      clear is set only for a held key that wins its axis. */
  lemma FlagsOnlyRiseWhileArrowHeld(k: Keys, f: Intent)
    requires AnyArrow(k)
    ensures f.right ==> Steer(k, f).right
    ensures f.left ==> Steer(k, f).left
    ensures f.up ==> Steer(k, f).up
    ensures f.down ==> Steer(k, f).down
    ensures Steer(k, f).right && !f.right ==> k.right
    ensures Steer(k, f).left && !f.left ==> k.left && !k.right
    ensures Steer(k, f).up && !f.up ==> k.up
    ensures Steer(k, f).down && !f.down ==> k.down && !k.up
  {
  }

  /** Because flags are sticky, holding left and then also pressing right
      leaves both horizontal flags set. */
  lemma BothHorizontalFlagsCanBeSet(k: Keys, f: Intent)
    requires k == Keys(true, true, false, false, false, false, false)
    requires f == Intent(false, true, false, false)
    ensures Steer(k, f).right && Steer(k, f).left
  {
  }

  /** Whether event `e` asks to start a game: a mouse press inside the
      button, or any other non-quit event while P is held. */
  predicate Trigger(button: Rect, k: Keys, e: Event) {
    (e.MouseDown? && ContainsPoint(button, e.pos)) || (k.p && e.OtherEvent?)
  }

  /** The state after one event other than a close request: a mouse press
      is a click on the play button; any other event starts a game when P
      is held and no game is running. The game is active afterwards
      exactly when it was already or the event is a trigger, and the only
      possible change is a start. */
  function AfterEvent(s: Settings, button: Rect, k: Keys, e: Event, w: World): (r: World)
    requires s.WellFormed()
    requires !e.Quit?
    ensures r.gameActive <==> w.gameActive || Trigger(button, k, e)
    ensures r == w || (!w.gameActive && r == StartGame(s, w))
  {
    if e.MouseDown? then CheckPlayButton(s, button, e.pos, w)
    else if k.p && !w.gameActive then StartGame(s, w)
    else w
  }

  /** The queued events in order; a close request exits at once. While a
      game runs the events either exit or change nothing; otherwise they
      leave the state as it was or started once. */
  function ProcessEvents(s: Settings, button: Rect, k: Keys, events: seq<Event>, w: World): (r: Outcome)
    requires s.WellFormed()
    ensures w.gameActive ==> r in {Exit, Running(w)}
    ensures r.Running? ==> r.world == w || (!w.gameActive && r.world == StartGame(s, w))
    decreases |events|
  {
    if events == [] then Running(w)
    else if events[0].Quit? then Exit
    else ProcessEvents(s, button, k, events[1..], AfterEvent(s, button, k, events[0], w))
  }

  predicate QuitQueued(events: seq<Event>) {
    exists i :: 0 <= i < |events| && events[i].Quit?
  }

  /** Some queued event would start a game from an inactive state. */
  predicate StartQueued(button: Rect, k: Keys, events: seq<Event>) {
    exists i :: 0 <= i < |events| && Trigger(button, k, events[i])
  }

  /** The events exit exactly when a close request is queued. */
  lemma {:induction false} EventsExitIffQuit(s: Settings, button: Rect, k: Keys, events: seq<Event>, w: World)
    requires s.WellFormed()
    ensures ProcessEvents(s, button, k, events, w).Exit? <==> QuitQueued(events)
  {
    if events != [] && !events[0].Quit? {
      EventsExitIffQuit(s, button, k, events[1..], AfterEvent(s, button, k, events[0], w));
      assert forall i :: 1 <= i < |events| ==> events[i] == events[1..][i - 1];
    }
  }

  /** An inactive game becomes active through the events only when a
      trigger is queued. */
  lemma {:induction false} StartNeedsTrigger(s: Settings, button: Rect, k: Keys, events: seq<Event>, w: World)
    requires s.WellFormed()
    requires !w.gameActive
    requires ProcessEvents(s, button, k, events, w).Running?
    requires ProcessEvents(s, button, k, events, w).world.gameActive
    ensures StartQueued(button, k, events)
  {
    if events != [] && !events[0].Quit? {
      if !Trigger(button, k, events[0]) {
        StartNeedsTrigger(s, button, k, events[1..], w);
        var i :| 0 <= i < |events[1..]| && Trigger(button, k, events[1..][i]);
        assert events[i + 1] == events[1..][i];
      }
    }
  }

  /** Conversely, when a trigger is queued and no close request ends the
      pass, an inactive game is started: the events before the first
      trigger change nothing, and a running game ignores the rest. */
  lemma {:induction false} TriggerStarts(s: Settings, button: Rect, k: Keys, events: seq<Event>, w: World)
    requires s.WellFormed()
    requires !w.gameActive
    requires StartQueued(button, k, events)
    requires ProcessEvents(s, button, k, events, w).Running?
    ensures ProcessEvents(s, button, k, events, w).world == StartGame(s, w)
  {
    var i :| 0 <= i < |events| && Trigger(button, k, events[i]);
    if !events[0].Quit? && !Trigger(button, k, events[0]) {
      assert events[1..][i - 1] == events[i];
      TriggerStarts(s, button, k, events[1..], w);
    }
  }

  /** What a batch of events can do, gathered for `CheckEvents`. */
  lemma EventsSummary(s: Settings, button: Rect, k: Keys, events: seq<Event>, w: World)
    requires s.WellFormed()
    ensures var o := ProcessEvents(s, button, k, events, w);
      && (o.Exit? <==> QuitQueued(events))
      && (o.Running? && !w.gameActive ==>
            o.world == (if StartQueued(button, k, events) then StartGame(s, w) else w))
  {
    EventsExitIffQuit(s, button, k, events, w);
    var o := ProcessEvents(s, button, k, events, w);
    if o.Running? && !w.gameActive {
      if StartQueued(button, k, events) {
        TriggerStarts(s, button, k, events, w);
      } else if o.world.gameActive {
        StartNeedsTrigger(s, button, k, events, w);
      }
    }
  }

  /** `_check_events`: the events, then Q exits, then space fires (whether or
      not a game is running), then the arrows set the intent flags. An
      inactive game is started exactly when a trigger is queued, and a
      running one is changed only by firing and the flags. */
  function CheckEvents(s: Settings, button: Rect, k: Keys, events: seq<Event>, shot: Rect, w: World): (r: Outcome)
    requires s.WellFormed()
    ensures r.Exit? <==> k.q || QuitQueued(events)
    ensures r.Running? ==> r.world.intent == Steer(k, w.intent)
    ensures r.Running? && w.gameActive ==>
      r.world == (if k.space then FireBullet(s, shot, w) else w).(intent := Steer(k, w.intent))
    ensures r.Running? && !w.gameActive ==>
      var w1 := if StartQueued(button, k, events) then StartGame(s, w) else w;
      r.world == (if k.space then FireBullet(s, shot, w1) else w1).(intent := Steer(k, w.intent))
  {
    EventsSummary(s, button, k, events, w);
    match ProcessEvents(s, button, k, events, w)
    case Exit => Exit
    case Running(w1) =>
      if k.q then Exit
      else
        var w2 := if k.space then FireBullet(s, shot, w1) else w1;
        Running(w2.(intent := Steer(k, w2.intent)))
  }
}
