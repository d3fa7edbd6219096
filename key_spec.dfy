/** The abstract value of a `Kiwi.Input.Key` and the transition its `update`
    method makes on that value, as pure functions over datatypes. */
module KeySpec {

  datatype Option<+T> = None | Some(value: T)

  /** The `type` of a keyboard event, as far as `update` tells types apart:
      'keydown', 'keyup', and every other string. */
  datatype EventType = KeyDown | KeyUp | Other

  /** The fields of a browser KeyboardEvent that `update` reads.
      Time stamps are whole numbers in the clock's unit. */
  datatype KeyEvent = KeyEvent(
    keyCode: int,
    eventType: EventType,
    timeStamp: int,
    altKey: bool,
    ctrlKey: bool,
    shiftKey: bool)

  /** Every field of a Key that `update` can change. */
  datatype KeyState = KeyState(
    keyCode: int,
    isDown: bool,
    isUp: bool,
    altKey: bool,
    ctrlKey: bool,
    shiftKey: bool,
    timeDown: int,
    duration: int,
    timeUp: int,
    repeats: nat)
  {
    /** `justPressed(window)` with the clock's reading `now` passed in:
        the key is down and was pressed more than `window` before `now`. */
    predicate JustPressed(window: int, now: int) {
      isDown && timeDown + window < now
    }

    /** `justReleased(window)` with the clock's reading `now` passed in:
        the key is up and was released more than `window` before `now`. */
    predicate JustReleased(window: int, now: int) {
      isUp && timeUp + window < now
    }

    /** The two state flags are never set together. */
    predicate Exclusive() {
      !(isDown && isUp)
    }

    /** Exactly one of the two state flags is set: the key is down or up. */
    predicate Settled() {
      isDown != isUp
    }

    /** The three modifier flags, as one value. */
    function Modifiers(): (bool, bool, bool) {
      (altKey, ctrlKey, shiftKey)
    }
  }

  /** The modifier flags an event carries. */
  function EventModifiers(e: KeyEvent): (bool, bool, bool) {
    (e.altKey, e.ctrlKey, e.shiftKey)
  }

  /** The state of a Key that has been constructed but has seen no event:
      the field initialisers of the class, with the key code it was built for. */
  function Initial(keyCode: int): KeyState {
    KeyState(keyCode, false, false, false, false, false, 0, 0, 0, 0)
  }

  /** What `update(event)` does to a key's state. The key code is taken from
      every event; a keydown copies the modifiers and either counts a repeat
      (already down) or starts a press; a keyup ends the press; any other type
      changes nothing further. */
  function Step(s: KeyState, e: KeyEvent): KeyState {
    var s := s.(keyCode := e.keyCode);
    match e.eventType
    case KeyDown =>
      var s := s.(altKey := e.altKey, ctrlKey := e.ctrlKey, shiftKey := e.shiftKey);
      if s.isDown then s.(repeats := s.repeats + 1)
      else s.(isDown := true, isUp := false, timeDown := e.timeStamp, duration := 0)
    case KeyUp =>
      s.(isDown := false, isUp := true, timeUp := e.timeStamp)
    case Other =>
      s
  }

  /** The state after feeding a stream of events, one `update` per event, in order. */
  function Run(s: KeyState, es: seq<KeyEvent>): KeyState
    decreases |es|
  {
    if es == [] then s else Run(Step(s, es[0]), es[1..])
  }

  /** The state of a Key built with an optional first event. */
  function Constructed(keyCode: int, event: Option<KeyEvent>): KeyState {
    match event
    case None => Initial(keyCode)
    case Some(e) => Step(Initial(keyCode), e)
  }
}
