# Kiwi.Input.Key in Dafny

A model of `Kiwi.Input.Key` from the Kiwi.js game engine: the object that
holds the live state of one keyboard key. It is driven by keyboard events
through `update(event)` and answers two time-window queries,
`justPressed(duration)` and `justReleased(duration)`.

- `key_spec.dfy` (module `KeySpec`): the event record (`KeyEvent`: key code,
  type, time stamp, alt/ctrl/shift), the key's state as a value (`KeyState`),
  the initial state, `Step` (what `update` does to the state), `Run` (a
  stream of events applied in order) and the two queries on a state.
- `key.dfy` (module `Input`): class `Key` with the source's fields, its
  constructor (with an optional first event), `Update`, which changes the
  fields in place and is proved to produce `Step` of the old state, and the
  queries `JustPressed`/`JustReleased`.
- `key_properties.dfy` (module `KeyProperties`): what each kind of event
  does, the invariants a stream of events keeps, the behaviour of the
  queries, and two worked scenarios.

The keyboard manager and the game clock are parameters: the caller passes
the window (the manager's `justPressedRate` or `justReleasedRate` when no
other is wanted) and the clock's current reading `now`.

Where the component's design description reads otherwise, the model follows
the code:
- `repeats` is not reset when a new press starts; it only ever grows
  (`RunRepeatsNeverDecrease`, `ScenarioModifiersRecaptured`).
- The modifier flags are copied on every keydown, auto-repeats included, not
  only when a press starts (`ModifiersOfLastKeyDown`).
- `justReleased` tests `isUp`, not `!isDown`; the two differ only on a key
  that has seen no keydown or keyup, where `justReleased` is false.
- The key code is overwritten by every event, whatever its type, so a key
  constructed with an event carries the event's key code, not the one it was
  constructed with.
- `duration` is never set to anything but 0 (`RunDurationZero`).
- A keydown on a state with both `isDown` and `isUp` set (which no stream of
  events reaches from the initial state, `FreshKeyExclusive`) counts a repeat
  and leaves `isUp` set; the per-event lemmas therefore assume a state in
  which the two flags are not both set.

## Model

| member | source | states |
|---|---|---|
| `Input.Key.constructor` | src/input/Key.ts:24-34 | The new key's state is the initial state (all flags false, times, duration and repeats 0, the given key code) or, when an event is given, one `update` applied to it; the two state flags are never both set |
| `Input.Key.Update` | src/input/Key.ts:124-154 | The fields after the call are `Step` of the fields before; the key code is the event's; a keydown leaves the key down, a keyup leaves it up and not down; the flags never become both set |
| `Input.Key.JustPressed` | src/input/Key.ts:162-173 | True exactly when the key is down and its press time plus the window is before `now`; the query reads the fields and changes none |
| `Input.Key.JustReleased` | src/input/Key.ts:181-192 | True exactly when the key is up and its release time plus the window is before `now`; the query reads the fields and changes none |
| `KeyProperties.InitialQueries` | src/input/Key.ts:60-116 | A key with no event is neither down nor up, and both queries are false for every window and clock reading |
| `KeyProperties.StepKeyCode` | src/input/Key.ts:126-152 | Every event sets the key code; an event that is neither keydown nor keyup changes nothing else |
| `KeyProperties.StepKeyDown` | src/input/Key.ts:128-145 | Every keydown, repeat or not, leaves a key whose two flags were not both set down and not up, with the event's alt, ctrl and shift flags |
| `KeyProperties.StepRepeat` | src/input/Key.ts:134-138 | A keydown on a key already down adds exactly one to `repeats` and keeps both flags, press and release times and duration |
| `KeyProperties.StepFreshPress` | src/input/Key.ts:139-145 | A keydown on a key not down sets the press time to the event's time stamp and duration to 0, and keeps `repeats` and the release time |
| `KeyProperties.StepKeyUp` | src/input/Key.ts:147-152 | A keyup leaves the key up and not down with the event's time stamp as release time, and keeps press time, duration, repeats and modifiers |
| `KeyProperties.StepQueriesAfterTransition` | src/input/Key.ts:162-192 | After a keyup `justPressed` is false and, on a key whose two flags were not both set, after a keydown `justReleased` is false, for every window and clock reading |
| `KeyProperties.QueriesMonotone` | src/input/Key.ts:164-183 | A query that holds keeps holding at any later clock reading and for any narrower window |
| `KeyProperties.PressedThreshold` | src/input/Key.ts:164 | The comparison is strict: pressed at 100 with a window of 50, `justPressed` is false at 140 and 150 and true at 151 |
| `KeyProperties.RunExclusive` | src/input/Key.ts:141-150 | No stream of events sets `isDown` and `isUp` together on a key that did not have both |
| `KeyProperties.RunSettled` | src/input/Key.ts:141-150 | Once a key is exactly one of down and up, every stream of events keeps it so |
| `KeyProperties.RunSettledAfterTransition` | src/input/Key.ts:128-152 | After any stream holding a keydown or keyup, a key whose two flags were not both set is exactly one of down and up |
| `KeyProperties.FreshKeyExclusive` | src/input/Key.ts:60-152 | From the initial state, the two flags are never both set, and exactly one is set once a keydown or keyup has arrived |
| `KeyProperties.RunRepeats` | src/input/Key.ts:134-138 | On a held key, n keydowns add n to `repeats` and change neither the flags, the press and release times, the duration nor any answer of `justPressed` |
| `KeyProperties.RunRepeatsNeverDecrease` | src/input/Key.ts:134-145 | No stream of events lowers `repeats`: a new press does not reset it |
| `KeyProperties.RunKeepsModifiers` | src/input/Key.ts:128-152 | A stream with no keydown leaves the alt, ctrl and shift flags unchanged |
| `KeyProperties.ModifiersOfLastKeyDown` | src/input/Key.ts:130-132 | After a stream, the modifier flags are those of its last keydown, whether that was a repeat or a new press |
| `KeyProperties.RunKeyCode` | src/input/Key.ts:126 | After a non-empty stream the key code is that of the last event |
| `KeyProperties.RunDurationZero` | src/input/Key.ts:102-144 | `duration` starts at 0 and no stream of events gives it another value |
| `KeyProperties.RunReleaseAfterPress` | src/input/Key.ts:143-151 | When events arrive in time order, a released key's release time is no earlier than its press time |
| `KeyProperties.ScenarioPressRepeatRelease` | src/input/Key.ts:124-154 | Press at 0, repeat at 5, release at 20 gives a key that is up, with one repeat, press time 0 and release time 20 |
| `KeyProperties.ScenarioModifiersRecaptured` | src/input/Key.ts:128-145 | Press with shift, repeat, release, press without shift gives a down key without shift, pressed at 15, still counting the earlier repeat |

## Left out

- src/hud/HUDWidget.ts is not part of this model: it creates and positions DOM elements and dispatches signals, with nothing to state without a browser.
- `objType()` returns a constant string.
- The keyboard manager (`_manager`) and its clock: the default windows `justPressedRate`/`justReleasedRate` and the reading of `game.time.now()` are parameters of the queries, so the default-argument mechanism itself is not modelled.
- The browser's `KeyboardEvent`: only the fields `update` reads are modelled, and its `type` string is reduced to keydown, keyup and anything else.
- JavaScript numbers are floating point; time stamps, windows and the key code are modelled as unbounded integers (no rounding, NaN or infinity), and `repeats` as a natural number.
- The fields of the source class are public and can be assigned from outside `update`; the model's properties speak of states reached through the constructor and `Update`.
