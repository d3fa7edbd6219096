/** `Kiwi.Input.Key`: the object that holds the live state of one keyboard key.
    The keyboard manager and its clock are not modelled: the default windows
    and the clock's reading are parameters of the two queries. */
module Input {
  import opened KeySpec

  class Key {
    var keyCode: int
    var isDown: bool
    var isUp: bool
    var altKey: bool
    var ctrlKey: bool
    var shiftKey: bool
    var timeDown: int
    var duration: int
    var timeUp: int
    var repeats: nat

    /** The fields `update` can change, as one value. */
    function State(): KeyState
      reads this
    {
      KeyState(keyCode, isDown, isUp, altKey, ctrlKey, shiftKey,
               timeDown, duration, timeUp, repeats)
    }

    /** Builds a key for `keycode` with every field at its initial value, then
        applies `event` when one is given (which also overwrites the key code). */
    constructor (keycode: int, event: Option<KeyEvent>)
      ensures State() == Constructed(keycode, event)
      ensures State().Exclusive()
      ensures event.None? ==> !isDown && !isUp && repeats == 0 && duration == 0
      ensures event.None? ==> timeDown == 0 && timeUp == 0 && !altKey && !ctrlKey && !shiftKey
      ensures event.Some? ==> State() == Step(Initial(keycode), event.value)
    {
      keyCode := keycode;
      isDown, isUp := false, false;
      altKey, ctrlKey, shiftKey := false, false, false;
      timeDown, duration, timeUp := 0, 0, 0;
      repeats := 0;
      new;
      if event.Some? {
        Update(event.value);
      }
    }

    /** Applies one keyboard event to the key. */
    method Update(event: KeyEvent)
      modifies this
      ensures State() == Step(old(State()), event)
      ensures keyCode == event.keyCode
      ensures event.eventType == KeyDown ==> isDown && (old(State()).Exclusive() ==> !isUp)
      ensures event.eventType == KeyUp ==> !isDown && isUp
      ensures old(State()).Exclusive() ==> State().Exclusive()
    {
      keyCode := event.keyCode;
      if event.eventType == KeyDown {
        altKey := event.altKey;
        ctrlKey := event.ctrlKey;
        shiftKey := event.shiftKey;
        if isDown {
          // already held down: an auto-repeat event
          repeats := repeats + 1;
        } else {
          isDown := true;
          isUp := false;
          timeDown := event.timeStamp;
          duration := 0;
        }
      } else if event.eventType == KeyUp {
        isDown := false;
        isUp := true;
        timeUp := event.timeStamp;
      }
    }

    /** `justPressed(duration)`: the caller passes the window (the manager's
        `justPressedRate` when it has no other) and the clock's reading. */
    function JustPressed(window: int, now: int): (r: bool)
      reads this
      ensures r == State().JustPressed(window, now)
      ensures r ==> isDown && timeDown < now - window
    {
      if isDown && timeDown + window < now then true else false
    }

    /** `justReleased(duration)`: the caller passes the window (the manager's
        `justReleasedRate` when it has no other) and the clock's reading. */
    function JustReleased(window: int, now: int): (r: bool)
      reads this
      ensures r == State().JustReleased(window, now)
      ensures r ==> isUp && timeUp < now - window
    {
      if isUp && timeUp + window < now then true else false
    }
  }
}
