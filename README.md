# Level-session helpers of survive2020, modelled in Dafny

This project models the shared level-session helpers of the game states in
`src/states/mod.rs`. The centre of it is the per-frame level timer,
`update_timer_and_set_high_score`. Each frame it does four things:

- It adds the frame delta to the caller's elapsed time.
- It redraws the timer readout when a whole second passes or the level is over.
- It decides whether the level is over. This is judged on the elapsed time
  from before the frame, so expiry arrives one frame late.
- When the level is over, it commits the score to the high-score table
  (update-if-greater), deletes the timer entity and returns `Replace(MainMenu)`.

The other helpers modelled are:

- `init_timer_text`: creates the timer readout entity.
- `init_level_title`: purges old level titles, then creates the new one.
- `return_to_main_menu_on_escape`: maps an input event to a transition.

The entity-component world is abstracted to a `World` object with these parts:

- the set of live entity handles;
- the `TimerComponent`-tagged entities, each with the text of its readout;
- the `LevelTitle`-tagged entities, each with the file name of its sprite;
- the high-score table.

Files:

- `timer.dfy`: module `Timer`. It holds the pure one-tick decision `TickStep` and
  a level session (`Session`, one tick per frame delta), with lemmas on exact
  time accumulation, the expiry boundary, the redraw condition and commit-once.
- `states.dfy`: module `States`. It holds the `World` class with its engine
  operations (create, delete, delete-all-titles), the four operations of
  `mod.rs` as methods and functions, and the input-event datatypes.
- `high_scores.dfy`: module `HighScores`. It has the update-if-greater
  operation that the timer calls.
- `wrappers.dfy`: `Option`.

Modelling choices:

- Time is `f32` in the game and `real` here; `floor()` is `.Floor`.
- The readout text is a datatype, not a formatted string. `Initial(max)` stands
  for the text `0s /{max}s`, written at creation with no space before the slash.
  `Running(secs, max)` stands for `{secs}s / {max}s`, written on every redraw.
- `Trans::None` is written `Stay`. `MainMenuState` is the opaque target `MainMenu`.
- The join over timer entities is taken to visit them by ascending handle, as
  the engine's bit-set joins do. So "the last entity the loop visits", the one
  deleted on expiry, is the timer entity with the greatest handle. The loop
  in `States.UpdateTimerAndSetHighScore` visits the least remaining handle
  each time and rewrites that entity's text in place.
- The caller's `&mut elapsed_time` is modelled as an input plus the out-parameter
  `newElapsed`. The frame delta, which the game reads from the `Time`
  resource, is the parameter `deltaSeconds`.
- `.expect("Couldn't delete timer text entity!")` can only fire on a dead
  handle. `World.DeleteEntity` requires a live handle. `World.Valid()` keeps
  every tagged entity live, so the timer operation never reaches that case.
- Entity handles are never reused; a new entity always gets a larger handle.
- `InitTimerText` and `InitLevelTitle` return the new handle so that their
  contracts can name it. The game discards it.

With a 5 s limit and frame deltas 4.9, 0.05, 0.1, every tick starts below the
limit (0, 4.9 and 4.95 s), so all three ticks stay. A fourth tick, starting at
5.05 s, is the one that replaces (`Timer.SessionExample`).

## Model

| member | source | states |
|---|---|---|
| `Timer.TickStep` | src/states/mod.rs:37-47 | one tick's decision; an expiring tick always redraws the readout, and with a non-negative delta the elapsed time never goes back |
| `Timer.RedrawExactlyOnWholeSecond` | src/states/mod.rs:40-50 | the readout is redrawn exactly when the level is over or some whole second k satisfies old < k <= new (the meaning of `new.floor() > old.floor()`), for deltas of either sign |
| `Timer.RedrawExample` | src/states/mod.rs:41 | 0.95 s plus 0.1 s gives 1.05 s and redraws; 0.2 s plus 0.1 s does not redraw |
| `Timer.ExpiresOneFrameLate` | src/states/mod.rs:43-47 | the tick that first reaches the limit still stays; the tick after it replaces with the main menu |
| `Timer.ElapsedIsSum` | src/states/mod.rs:37-47 | after any sequence of ticks the elapsed time is the start plus the sum of all deltas, whether or not the level expired |
| `Timer.ElapsedNonDecreasing` | src/states/mod.rs:38-47 | with non-negative deltas, the elapsed time after a longer prefix of ticks is never smaller |
| `Timer.Session` | src/states/mod.rs:71-84 | over a session, every tick but the last stays, and a session that stops early stops on a Replace |
| `Timer.CommitAtMostOnce` | src/states/mod.rs:71-72 | the number of committing ticks in a session is 1 if the session ended by expiry and 0 otherwise |
| `Timer.SessionEndsAtFirstExpiredTick` | src/states/mod.rs:43-84 | the session ends with Replace on tick i exactly when tick i is the first whose pre-tick elapsed time has reached the limit (both directions) |
| `Timer.SessionExample` | src/states/mod.rs:38-84 | limit 5 s, deltas 4.9, 0.05, 0.1 give Stay, Stay, Stay; one more 0.1 s tick gives Replace |
| `HighScores.UpdateIfGreater` | src/states/mod.rs:71-72 | the key ends up holding the larger of its old score and the candidate (the candidate if there was none); no other key changes |
| `HighScores.UpdateIfGreaterIdempotent` | src/states/mod.rs:72 | committing the same score twice is the same as committing it once |
| `HighScores.UpdateIfGreaterNeverDecreases` | src/states/mod.rs:72 | no stored score decreases and no key disappears |
| `States.Least` | src/states/mod.rs:57 | the join's next entity: a member of the remaining set no larger than any other |
| `States.Greatest` | src/states/mod.rs:57-65 | the join's last entity: a member of the set no smaller than any other |
| `States.World.CreateEntity` | src/states/mod.rs:112-117 | a fresh handle becomes live; no component and no score changes |
| `States.World.DeleteEntity` | src/states/mod.rs:76-78 | a live entity and all its components are removed; nothing else changes |
| `States.World.DeleteAllLevelTitles` | src/states/mod.rs:188-189 | every title-tagged entity and its components are removed; nothing else changes |
| `States.UpdateTimerAndSetHighScore` | src/states/mod.rs:30-85 | new elapsed = old + delta; Replace(MainMenu) exactly when the old elapsed time has reached the limit; the high-score table changes only then, by update-if-greater with this score and key; on expiry exactly the greatest-handle timer entity is deleted (none if no timer exists); otherwise the live set and tags are unchanged; timer texts become Running(floor(new), max) exactly on a redraw and are unchanged otherwise |
| `States.InitTimerText` | src/states/mod.rs:87-118 | exactly one fresh entity is added, tagged as a timer with text Initial(max); existing entities, titles and scores are untouched |
| `States.InitLevelTitle` | src/states/mod.rs:186-204 | afterwards the only title is the new fresh entity with the given sprite; the old titles are gone and nothing else is deleted |
| `States.InitLevelTitleTwice` | src/states/mod.rs:179-204 | two title initialisations in a row leave exactly one title, showing the second sprite |
| `States.ReturnToMainMenuOnEscape` | src/states/mod.rs:166-177 | Replace(MainMenu) exactly for a window event pressing Escape, Stay for every other event |

## Left out

- `create_systems_dispatcher`, `create_optional_systems_dispatcher` and `run_systems`: these wrap the engine's parallel dispatcher and thread pool. That is concurrency in foreign code.
- `init_camera`, and the layout in `init_timer_text` and `init_level_title`: screen dimensions, anchors, translations, colours, font and sprite loading. This is rendering setup with no logic. The title's sprite is represented by its file name.
- `f32` rounding and how `format!` renders floats: time is a `real`, and the readout is the `TimerText` datatype.
- The bodies of `update_high_score_if_greater` and `delete_all_entities_with_component`: their files are not part of this model. Each gets the contract its name promises (update-if-greater; delete every tagged entity). A key missing from the table is taken to receive the score.
- `is_key_down` belongs to the engine's input crate. `States.IsKeyDown` models its documented behaviour: a keyboard event whose virtual key code is the given key and whose state is pressed.
- The join also needs a `UiText` component on each timer entity. In the model every timer-tagged entity carries its text, so an entity tagged without text cannot arise.
- The fatal `expect` on deleting a dead handle becomes the precondition of `World.DeleteEntity`, which the world invariant always meets.
- Scores are `u64` in the game and unbounded naturals here. No arithmetic is done on them.
- Index reuse is not modelled. The engine reuses the index of a deleted entity and only changes its generation, while the join visits entities by index. So with several timer entities, the game deletes the one with the largest index, and that need not be the newest; the model always deletes the most recently created one.
