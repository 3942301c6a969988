/** A play session as a sequence of events: timer ticks, keydown events,
    button clicks and "Play Again". Every state a session reaches keeps the
    invariant, and the flags reach combinations a single status could not
    express (paused before the start, paused after the end). */
module Session {
  import opened Grid
  import opened Food
  import opened Game
  import opened Invariants

  datatype Event =
    | Tick(rnd: nat)
    | KeyDown(key: string)
    | DirectionClick(h: Heading)
    | PauseClick
    | PlayAgain(rnd: nat)

  /** An event can be applied: only a tick may fail to return. */
  ghost predicate Enabled(s: State, e: Event) {
    e.Tick? ==> StepDefined(s)
  }

  /** The "Play Again" button is only on screen once the game is over. */
  function Apply(s: State, e: Event): (r: State)
    requires Enabled(s, e)
    ensures !s.gameOver && r.gameOver ==> e.Tick?
    ensures s.gameOver && !r.gameOver ==> e.PlayAgain? && r == Reset(e.rnd)
  {
    match e
    case Tick(rnd) => Step(s, rnd)
    case KeyDown(key) => HandleKeyPress(s, key)
    case DirectionClick(h) => HandleDirectionClick(s, h)
    case PauseClick => TogglePauseButton(s)
    case PlayAgain(rnd) => if s.gameOver then Reset(rnd) else s
  }

  /** Every event of `events`, applied in turn from `s`, is enabled. */
  ghost predicate Replayable(s: State, events: seq<Event>)
    decreases |events|
  {
    |events| == 0 || (Enabled(s, events[0]) && Replayable(Apply(s, events[0]), events[1..]))
  }

  function Run(s: State, events: seq<Event>): State
    requires Replayable(s, events)
    decreases |events|
  {
    if |events| == 0 then s else Run(Apply(s, events[0]), events[1..])
  }

  /** The session invariant: the board invariant, and a game can only be
      over once it has started. */
  ghost predicate SessionInv(s: State) {
    Inv(s) && (s.gameOver ==> s.gameStarted)
  }

  lemma ApplyPreservesSessionInv(s: State, e: Event)
    requires SessionInv(s) && Enabled(s, e)
    ensures SessionInv(Apply(s, e))
  {
    match e
    case Tick(rnd) => StepPreservesInv(s, rnd);
    case KeyDown(key) => KeyPressPreservesInv(s, key);
    case DirectionClick(h) => DirectionClickPreservesInv(s, h);
    case PauseClick => PauseButtonPreservesInv(s);
    case PlayAgain(rnd) => ResetEstablishesInv(rnd);
  }

  lemma {:induction false} RunPreservesSessionInv(s: State, events: seq<Event>)
    requires SessionInv(s) && Replayable(s, events)
    ensures SessionInv(Run(s, events))
    decreases |events|
  {
    if |events| > 0 {
      ApplyPreservesSessionInv(s, events[0]);
      RunPreservesSessionInv(Apply(s, events[0]), events[1..]);
    }
  }

  /** Every state reachable from the first render keeps the invariant. */
  lemma ReachableStatesKeepInv(rnd: nat, events: seq<Event>)
    requires Replayable(Initial(rnd), events)
    ensures SessionInv(Run(Initial(rnd), events))
  {
    InitialEstablishesInv(rnd);
    RunPreservesSessionInv(Initial(rnd), events);
  }

  /** The pause button works before the game starts; the first arrow key
      then starts a game that is already paused, so the turn it asks for is
      dropped and the next tick does nothing. */
  lemma PausedBeforeStart(s: State, tick: nat)
    requires !s.gameStarted && !s.isPaused && !s.gameOver
    ensures Replayable(s, [PauseClick])
    ensures var p := Run(s, [PauseClick]);
      p.isPaused && !p.gameStarted && !p.gameOver
    ensures Replayable(s, [PauseClick, KeyDown("ArrowUp"), Tick(tick)])
    ensures Run(s, [PauseClick, KeyDown("ArrowUp"), Tick(tick)])
      == s.(isPaused := true, gameStarted := true)
  {
    var events := [PauseClick, KeyDown("ArrowUp"), Tick(tick)];
    var s1 := Apply(s, PauseClick);
    assert s1 == s.(isPaused := true);
    assert Run(s, [PauseClick]) == Run(s1, []) == s1;
    assert "Arrow" <= "ArrowUp";
    var s2 := Apply(s1, KeyDown("ArrowUp"));
    assert s2 == s1.(gameStarted := true);
    assert Apply(s2, Tick(tick)) == s2;
    assert events[1..] == [KeyDown("ArrowUp"), Tick(tick)];
    assert events[1..][1..] == [Tick(tick)];
    assert Replayable(s2, [Tick(tick)]) && Run(s2, [Tick(tick)]) == s2;
    assert Replayable(s1, events[1..]) && Run(s1, events[1..]) == s2;
  }

  /** In particular from the first render. */
  lemma PausedBeforeFirstStart(rnd: nat, tick: nat)
    ensures Replayable(Initial(rnd), [PauseClick, KeyDown("ArrowUp"), Tick(tick)])
    ensures Run(Initial(rnd), [PauseClick, KeyDown("ArrowUp"), Tick(tick)]).isPaused
    ensures Run(Initial(rnd), [PauseClick, KeyDown("ArrowUp"), Tick(tick)]).direction == InitialDirection
    ensures Run(Initial(rnd), [PauseClick, KeyDown("ArrowUp"), Tick(tick)]).snake == InitialSnake
  {
    PausedBeforeStart(Initial(rnd), tick);
  }

  /** After the game ends, the pause button still toggles the pause flag,
      while ticks, keys and direction buttons change nothing. */
  lemma FrozenAfterGameOver(s: State, e: Event)
    requires s.gameOver && s.gameStarted && Enabled(s, e)
    requires !e.PlayAgain?
    ensures Apply(s, e).gameOver
    ensures e.PauseClick? ==> Apply(s, e) == s.(isPaused := !s.isPaused)
    ensures !e.PauseClick? ==> Apply(s, e) == s
  {
  }

  /** "Play Again" starts the new game straight away: no session returns to
      the not-started state once it has left it. */
  lemma {:induction false} StartedStaysStarted(s: State, events: seq<Event>)
    requires s.gameStarted && Replayable(s, events)
    ensures Run(s, events).gameStarted
    decreases |events|
  {
    if |events| > 0 {
      StartedStaysStarted(Apply(s, events[0]), events[1..]);
    }
  }
}
