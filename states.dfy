/**
  Shared level-session helpers of the game states: the per-frame level timer
  with its high-score commit, the timer readout and level title bootstrap, and
  the escape-to-menu trigger.

  The entity-component store is abstracted to a `World` object holding the
  live entities, the entities tagged `TimerComponent` (each with the text of
  its readout), the entities tagged `LevelTitle` (each with the file name of
  its title sprite) and the high-score table.
 */
module States {
  import opened Wrappers
  import opened Timer
  import HighScores

  /** An entity handle; handles are never reused once deleted. */
  type Entity = nat

  class World {
    var live: set<Entity>
    var timers: map<Entity, TimerText>
    var titles: map<Entity, string>
    var highScores: HighScores.Table
    var nextId: nat

    /** Every tagged entity is live, and no live handle is at or above `nextId`. */
    ghost predicate Valid()
      reads this
    {
      && timers.Keys <= live
      && titles.Keys <= live
      && forall e :: e in live ==> e < nextId
    }

    constructor (highScores: HighScores.Table)
      ensures Valid()
      ensures live == {} && timers == map[] && titles == map[]
      ensures this.highScores == highScores
    {
      live, timers, titles := {}, map[], map[];
      this.highScores := highScores;
      nextId := 0;
    }

    /** `create_entity().build()`: a new live entity carrying no components yet. */
    method CreateEntity() returns (e: Entity)
      requires Valid()
      modifies this
      ensures Valid()
      ensures e !in old(live) && live == old(live) + {e}
      ensures e == old(nextId) && nextId == e + 1
      ensures timers == old(timers) && titles == old(titles) && highScores == old(highScores)
    {
      e := nextId;
      nextId := nextId + 1;
      live := live + {e};
    }

    /**
      `delete_entity`: the entity and all its components go. Deleting a dead
      handle is the fatal case of the game, so the handle must be live.
     */
    method DeleteEntity(e: Entity)
      requires Valid() && e in live
      modifies this
      ensures Valid()
      ensures live == old(live) - {e}
      ensures timers == old(timers) - {e} && titles == old(titles) - {e}
      ensures highScores == old(highScores) && nextId == old(nextId)
    {
      live := live - {e};
      timers := timers - {e};
      titles := titles - {e};
    }

    /** `delete_all_entities_with_component::<LevelTitle>`. */
    method DeleteAllLevelTitles()
      requires Valid()
      modifies this
      ensures Valid()
      ensures titles == map[]
      ensures live == old(live) - old(titles).Keys
      ensures timers == old(timers) - old(titles).Keys
      ensures highScores == old(highScores) && nextId == old(nextId)
    {
      live := live - titles.Keys;
      timers := timers - titles.Keys;
      titles := map[];
    }
  }

  // ---------------------------------------------------------------------------
  // The order in which a join visits entities: ascending handle.

  ghost function Least(s: set<Entity>): (m: Entity)
    requires s != {}
    ensures m in s && forall y :: y in s ==> m <= y
    decreases s
  {
    var x :| x in s;
    var rest := s - {x};
    assert forall y :: y in s ==> y == x || y in rest;
    if rest == {} then x
    else
      var r := Least(rest);
      if x <= r then x else r
  }

  ghost function Greatest(s: set<Entity>): (m: Entity)
    requires s != {}
    ensures m in s && forall y :: y in s ==> y <= m
    decreases s
  {
    var x :| x in s;
    var rest := s - {x};
    assert forall y :: y in s ==> y == x || y in rest;
    if rest == {} then x
    else
      var r := Greatest(rest);
      if x <= r then r else x
  }

  /**
    The timer entity an expiring tick deletes: the last one the join visits,
    if any timer entity exists at all.
   */
  ghost function DeletedOnExpiry(timers: map<Entity, TimerText>, levelIsOver: bool): set<Entity>
  {
    if levelIsOver && timers != map[] then {Greatest(timers.Keys)} else {}
  }

  // ---------------------------------------------------------------------------
  // The core operations.

  /**
    One frame of a level: advance the caller's elapsed time by the frame delta,
    redraw the timer readouts when a whole second passes or the level is over,
    and when the level is over (judged on the elapsed time before this frame)
    commit the score, delete the last timer entity and go back to the menu.
   */
  method UpdateTimerAndSetHighScore(world: World, elapsedTime: real, maxTime: real, score: nat,
                                    highScoreKey: string, deltaSeconds: real)
    returns (newElapsed: real, trans: Trans)
    requires world.Valid()
    modifies world
    ensures world.Valid()
    ensures newElapsed == elapsedTime + deltaSeconds
    ensures trans == (if elapsedTime >= maxTime then Replace(MainMenu) else Stay)
    ensures world.highScores == if elapsedTime >= maxTime
      then HighScores.UpdateIfGreater(old(world.highScores), highScoreKey, score)
      else old(world.highScores)
    ensures var deleted := DeletedOnExpiry(old(world.timers), elapsedTime >= maxTime);
      && world.live == old(world.live) - deleted
      && world.titles == old(world.titles) - deleted
      && world.timers.Keys == old(world.timers).Keys - deleted
    ensures forall e :: e in world.timers ==>
      world.timers[e] == if TickStep(elapsedTime, deltaSeconds, maxTime).redraw
                         then Running(newElapsed.Floor, maxTime)
                         else old(world.timers)[e]
    ensures world.nextId == old(world.nextId)
  {
    var step := TickStep(elapsedTime, deltaSeconds, maxTime);
    newElapsed := step.newTime;
    var levelIsOver := step.trans.Replace?;

    var timerEntity: Option<Entity> := None;
    if step.redraw {
      var text := Running(newElapsed.Floor, maxTime);
      var remaining := world.timers.Keys;
      ghost var visited: set<Entity> := {};
      while remaining != {}
        invariant world.timers.Keys == old(world.timers).Keys
        invariant remaining <= old(world.timers).Keys
        invariant visited == old(world.timers).Keys - remaining
        invariant forall v, r :: v in visited && r in remaining ==> v < r
        invariant forall e :: e in visited ==> world.timers[e] == text
        invariant forall e :: e in remaining ==> world.timers[e] == old(world.timers)[e]
        invariant timerEntity == if levelIsOver && visited != {} then Some(Greatest(visited)) else None
        invariant world.live == old(world.live) && world.titles == old(world.titles)
        invariant world.highScores == old(world.highScores) && world.nextId == old(world.nextId)
        decreases remaining
      {
        // Least's postcondition shows that the choice below is possible.
        ghost var least := Least(remaining);
        var e :| e in remaining && forall x :: x in remaining ==> e <= x;
        world.timers := world.timers[e := text];
        if levelIsOver {
          timerEntity := Some(e);
        }
        remaining := remaining - {e};
        visited := visited + {e};
      }
      assert visited == old(world.timers).Keys;
    }

    if levelIsOver {
      world.highScores := HighScores.UpdateIfGreater(world.highScores, highScoreKey, score);
      match timerEntity {
        case Some(e) => world.DeleteEntity(e);
        case None =>
      }
      trans := Replace(MainMenu);
    } else {
      trans := Stay;
    }
  }

  /**
    Create the timer readout: one new entity tagged `TimerComponent` showing
    the initial text for `maxSeconds`. The handle is returned so the contract
    can name it; the game discards it.
   */
  method InitTimerText(world: World, maxSeconds: real) returns (e: Entity)
    requires world.Valid()
    modifies world
    ensures world.Valid()
    ensures e !in old(world.live) && world.live == old(world.live) + {e}
    ensures world.timers == old(world.timers)[e := Initial(maxSeconds)]
    ensures world.titles == old(world.titles) && world.highScores == old(world.highScores)
  {
    e := world.CreateEntity();
    world.timers := world.timers[e := Initial(maxSeconds)];
  }

  /**
    Show the level title: delete every entity tagged `LevelTitle`, then create
    one new one with the sprite from `filename`. Afterwards the new entity is
    the only title.
   */
  method InitLevelTitle(world: World, filename: string) returns (e: Entity)
    requires world.Valid()
    modifies world
    ensures world.Valid()
    ensures world.titles == map[e := filename]
    ensures e !in old(world.live)
    ensures world.live == old(world.live) - old(world.titles).Keys + {e}
    ensures world.timers == old(world.timers) - old(world.titles).Keys
    ensures world.highScores == old(world.highScores)
  {
    world.DeleteAllLevelTitles();
    e := world.CreateEntity();
    world.titles := world.titles[e := filename];
  }

  /** Two title initialisations in a row leave one title, showing the second sprite. */
  method InitLevelTitleTwice(world: World, first: string, second: string) returns (e: Entity)
    requires world.Valid()
    modifies world
    ensures world.Valid()
    ensures world.titles == map[e := second] && |world.titles| == 1
    ensures world.highScores == old(world.highScores)
  {
    var _ := InitLevelTitle(world, first);
    e := InitLevelTitle(world, second);
  }

  // ---------------------------------------------------------------------------
  // Input events (as the window layer delivers them).

  datatype VirtualKeyCode = Escape | OtherKey(code: nat)
  datatype ElementState = Pressed | Released
  datatype WindowEvent =
    | KeyboardInput(scancode: nat, state: ElementState, virtualKeycode: Option<VirtualKeyCode>)
    | OtherWindowEvent
  datatype StateEvent = Window(event: WindowEvent) | Ui | Input

  /** The engine's `is_key_down`: a keyboard event pressing exactly `key`. */
  function IsKeyDown(event: WindowEvent, key: VirtualKeyCode): bool
  {
    match event
    case KeyboardInput(_, state, Some(code)) => code == key && state == Pressed
    case _ => false
  }

  /** Go back to the main menu when Escape is pressed; stay on any other event. */
  function ReturnToMainMenuOnEscape(event: StateEvent): (t: Trans)
    ensures t == Replace(MainMenu) <==>
      event.Window? && event.event.KeyboardInput? && event.event.state == Pressed
      && event.event.virtualKeycode == Some(Escape)
  {
    if event.Window? then
      if IsKeyDown(event.event, Escape) then Replace(MainMenu) else Stay
    else
      Stay
  }
}
