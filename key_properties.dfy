/** What a key's state machine promises: the effect of each kind of event,
    the invariants a stream of events keeps, and the two time-window queries. */
module KeyProperties {
  import opened KeySpec

  // ---------------------------------------------------------------------
  // One event at a time

  /** A fresh key is neither down nor up, and both queries are false for
      every window and every clock reading. */
  lemma InitialQueries(keyCode: int, window: int, now: int)
    ensures !Initial(keyCode).isDown && !Initial(keyCode).isUp
    ensures !Initial(keyCode).JustPressed(window, now)
    ensures !Initial(keyCode).JustReleased(window, now)
  {
  }

  /** Every event, whatever its type, sets the key code; an event that is
      neither a keydown nor a keyup changes nothing else. */
  lemma StepKeyCode(s: KeyState, e: KeyEvent)
    ensures Step(s, e).keyCode == e.keyCode
    ensures e.eventType == Other ==> Step(s, e) == s.(keyCode := e.keyCode)
  {
  }

  /** Every keydown, repeat or not, leaves the key down and not up (unless
      both flags were already set), with the event's modifier flags. */
  lemma StepKeyDown(s: KeyState, e: KeyEvent)
    requires e.eventType == KeyDown && s.Exclusive()
    ensures Step(s, e).isDown && !Step(s, e).isUp
    ensures Step(s, e).Modifiers() == EventModifiers(e)
  {
  }

  /** A keydown while the key is already down counts one more repeat and
      leaves the press itself (flags, times, duration) as it was. */
  lemma StepRepeat(s: KeyState, e: KeyEvent)
    requires e.eventType == KeyDown && s.isDown
    ensures Step(s, e).repeats == s.repeats + 1
    ensures Step(s, e).isDown == s.isDown && Step(s, e).isUp == s.isUp
    ensures Step(s, e).timeDown == s.timeDown && Step(s, e).timeUp == s.timeUp
    ensures Step(s, e).duration == s.duration
  {
  }

  /** A keydown while the key is not down starts a press at the event's time
      stamp with duration 0; the repeat count and release time are kept. */
  lemma StepFreshPress(s: KeyState, e: KeyEvent)
    requires e.eventType == KeyDown && !s.isDown
    ensures Step(s, e).timeDown == e.timeStamp && Step(s, e).duration == 0
    ensures Step(s, e).repeats == s.repeats && Step(s, e).timeUp == s.timeUp
  {
  }

  /** A keyup leaves the key up and not down, released at the event's time
      stamp; press time, duration, repeats and modifiers are kept. */
  lemma StepKeyUp(s: KeyState, e: KeyEvent)
    requires e.eventType == KeyUp
    ensures !Step(s, e).isDown && Step(s, e).isUp
    ensures Step(s, e).timeUp == e.timeStamp
    ensures Step(s, e).timeDown == s.timeDown && Step(s, e).duration == s.duration
    ensures Step(s, e).repeats == s.repeats && Step(s, e).Modifiers() == s.Modifiers()
  {
  }

  /** After a keyup `justPressed` is false, after a keydown `justReleased` is
      false (for a key whose flags are not both set), whatever the window and
      the clock say. */
  lemma StepQueriesAfterTransition(s: KeyState, e: KeyEvent, window: int, now: int)
    requires s.Exclusive()
    ensures e.eventType == KeyUp ==> !Step(s, e).JustPressed(window, now)
    ensures e.eventType == KeyDown ==> !Step(s, e).JustReleased(window, now)
  {
  }

  // ---------------------------------------------------------------------
  // The two queries

  /** Once a query holds it keeps holding as the clock advances, and it
      holds for every narrower window. */
  lemma QueriesMonotone(s: KeyState, window: int, now: int, window': int, later: int)
    requires window' <= window && now <= later
    ensures s.JustPressed(window, now) ==> s.JustPressed(window', later)
    ensures s.JustReleased(window, now) ==> s.JustReleased(window', later)
  {
  }

  /** The threshold is strict: a key pressed at 100 has not been "just
      pressed" for a window of 50 at time 140 nor at 150, and has at 151. */
  lemma PressedThreshold(s: KeyState)
    requires s.isDown && s.timeDown == 100
    ensures !s.JustPressed(50, 140) && !s.JustPressed(50, 150) && s.JustPressed(50, 151)
  {
  }

  // ---------------------------------------------------------------------
  // Streams of events

  /** Feeding two streams one after the other is feeding their concatenation. */
  lemma {:induction false} RunAppend(s: KeyState, a: seq<KeyEvent>, b: seq<KeyEvent>)
    ensures Run(s, a + b) == Run(Run(s, a), b)
    decreases |a|
  {
    if a == [] {
      assert a + b == b;
    } else {
      assert (a + b)[1..] == a[1..] + b;
      RunAppend(Step(s, a[0]), a[1..], b);
    }
  }

  /** `isDown` and `isUp` are never both set: no stream of events sets both
      on a key that did not have both. */
  lemma {:induction false} RunExclusive(s: KeyState, es: seq<KeyEvent>)
    requires s.Exclusive()
    ensures Run(s, es).Exclusive()
    decreases |es|
  {
    if es != [] {
      RunExclusive(Step(s, es[0]), es[1..]);
    }
  }

  /** Once the key is down or up it stays exactly one of the two. */
  lemma {:induction false} RunSettled(s: KeyState, es: seq<KeyEvent>)
    requires s.Settled()
    ensures Run(s, es).Settled()
    decreases |es|
  {
    if es != [] {
      RunSettled(Step(s, es[0]), es[1..]);
    }
  }

  /** After a stream holding at least one keydown or keyup, a key that did
      not have both flags set is exactly one of down and up. */
  lemma {:induction false} RunSettledAfterTransition(s: KeyState, es: seq<KeyEvent>, i: nat)
    requires s.Exclusive()
    requires i < |es| && es[i].eventType != Other
    ensures Run(s, es).Settled()
    decreases |es|
  {
    if i == 0 {
      assert Step(s, es[0]).Settled();
      RunSettled(Step(s, es[0]), es[1..]);
    } else {
      assert es[1..][i - 1] == es[i];
      assert Step(s, es[0]).Exclusive();
      RunSettledAfterTransition(Step(s, es[0]), es[1..], i - 1);
    }
  }

  /** A key built with no event and then fed a stream of events never has
      both flags set, and has exactly one once a keydown or keyup arrived. */
  lemma FreshKeyExclusive(keyCode: int, es: seq<KeyEvent>)
    ensures Run(Initial(keyCode), es).Exclusive()
    ensures (exists i :: 0 <= i < |es| && es[i].eventType != Other) ==>
              Run(Initial(keyCode), es).Settled()
  {
    RunExclusive(Initial(keyCode), es);
    if i :| 0 <= i < |es| && es[i].eventType != Other {
      RunSettledAfterTransition(Initial(keyCode), es, i);
    }
  }

  /** While the key is held, n keydowns count n repeats and change neither
      the press time, the flags, the release time, the duration, nor the
      answer of `justPressed`. */
  lemma {:induction false} RunRepeats(s: KeyState, es: seq<KeyEvent>)
    requires s.isDown
    requires forall i :: 0 <= i < |es| ==> es[i].eventType == KeyDown
    ensures Run(s, es).repeats == s.repeats + |es|
    ensures Run(s, es).isDown && Run(s, es).isUp == s.isUp
    ensures Run(s, es).timeDown == s.timeDown && Run(s, es).timeUp == s.timeUp
    ensures Run(s, es).duration == s.duration
    ensures forall window, now :: Run(s, es).JustPressed(window, now) == s.JustPressed(window, now)
    decreases |es|
  {
    if es != [] {
      var t := Step(s, es[0]);
      assert forall i :: 0 <= i < |es[1..]| ==> es[1..][i] == es[i + 1];
      RunRepeats(t, es[1..]);
    }
  }

  /** No event lowers the repeat count: it is not reset by a new press. */
  lemma {:induction false} RunRepeatsNeverDecrease(s: KeyState, es: seq<KeyEvent>)
    ensures Run(s, es).repeats >= s.repeats
    decreases |es|
  {
    if es != [] {
      RunRepeatsNeverDecrease(Step(s, es[0]), es[1..]);
    }
  }

  /** A stream with no keydown in it leaves the modifier flags as they were. */
  lemma {:induction false} RunKeepsModifiers(s: KeyState, es: seq<KeyEvent>)
    requires forall i :: 0 <= i < |es| ==> es[i].eventType != KeyDown
    ensures Run(s, es).Modifiers() == s.Modifiers()
    decreases |es|
  {
    if es != [] {
      assert forall i :: 0 <= i < |es[1..]| ==> es[1..][i] == es[i + 1];
      RunKeepsModifiers(Step(s, es[0]), es[1..]);
    }
  }

  /** The modifier flags are those of the last keydown in the stream, be it
      a fresh press or a repeat. */
  lemma ModifiersOfLastKeyDown(s: KeyState, es: seq<KeyEvent>, i: nat)
    requires i < |es| && es[i].eventType == KeyDown
    requires forall j :: i < j < |es| ==> es[j].eventType != KeyDown
    ensures Run(s, es).Modifiers() == EventModifiers(es[i])
  {
    var prefix, rest := es[..i + 1], es[i + 1..];
    assert es == prefix + rest;
    RunAppend(s, prefix, rest);
    assert prefix == es[..i] + [es[i]];
    RunAppend(s, es[..i], [es[i]]);
    assert forall j :: 0 <= j < |rest| ==> rest[j] == es[i + 1 + j];
    RunKeepsModifiers(Run(s, prefix), rest);
  }

  /** After a non-empty stream the key code is that of the last event. */
  lemma {:induction false} RunKeyCode(s: KeyState, es: seq<KeyEvent>)
    requires es != []
    ensures Run(s, es).keyCode == es[|es| - 1].keyCode
    decreases |es|
  {
    if |es| > 1 {
      assert es[1..][|es[1..]| - 1] == es[|es| - 1];
      RunKeyCode(Step(s, es[0]), es[1..]);
    }
  }

  /** Nothing ever sets `duration` to anything but 0: it stays 0 from the
      initial state on. */
  lemma {:induction false} RunDurationZero(s: KeyState, es: seq<KeyEvent>)
    requires s.duration == 0
    ensures Run(s, es).duration == 0
    decreases |es|
  {
    if es != [] {
      RunDurationZero(Step(s, es[0]), es[1..]);
    }
  }

  /** Time stamps in order: none before the key's recorded press time and
      each no earlier than the one before it. */
  predicate Chronological(s: KeyState, es: seq<KeyEvent>) {
    && (forall i :: 0 <= i < |es| ==> s.timeDown <= es[i].timeStamp)
    && (forall i, j :: 0 <= i < j < |es| ==> es[i].timeStamp <= es[j].timeStamp)
  }

  /** Fed events in time order, a released key was released no earlier than
      it was pressed. */
  lemma {:induction false} RunReleaseAfterPress(s: KeyState, es: seq<KeyEvent>)
    requires s.isUp ==> s.timeDown <= s.timeUp
    requires Chronological(s, es)
    ensures Run(s, es).isUp ==> Run(s, es).timeDown <= Run(s, es).timeUp
    decreases |es|
  {
    if es != [] {
      var t := Step(s, es[0]);
      assert forall i :: 0 <= i < |es[1..]| ==> es[1..][i] == es[i + 1];
      assert Chronological(t, es[1..]);
      RunReleaseAfterPress(t, es[1..]);
    }
  }

  // ---------------------------------------------------------------------
  // Scenarios

  /** Press at 0, auto-repeat at 5, release at 20. */
  lemma ScenarioPressRepeatRelease(keyCode: int)
    ensures
      var down := KeyEvent(keyCode, KeyDown, 0, false, false, false);
      var again := KeyEvent(keyCode, KeyDown, 5, false, false, false);
      var up := KeyEvent(keyCode, KeyUp, 20, false, false, false);
      var t := Run(Initial(keyCode), [down, again, up]);
      !t.isDown && t.isUp && t.repeats == 1 && t.timeDown == 0 && t.timeUp == 20
  {
    var down := KeyEvent(keyCode, KeyDown, 0, false, false, false);
    var again := KeyEvent(keyCode, KeyDown, 5, false, false, false);
    var up := KeyEvent(keyCode, KeyUp, 20, false, false, false);
    RunAppend(Initial(keyCode), [down, again], [up]);
    RunAppend(Initial(keyCode), [down], [again]);
    assert [down, again] + [up] == [down, again, up];
    assert [down] + [again] == [down, again];
  }

  /** Press with shift at 0, auto-repeat at 4, release at 10, press without
      shift at 15: the second press's flags win, and the repeat count of the
      first press is kept. */
  lemma ScenarioModifiersRecaptured(keyCode: int)
    ensures
      var first := KeyEvent(keyCode, KeyDown, 0, false, false, true);
      var again := KeyEvent(keyCode, KeyDown, 4, false, false, true);
      var up := KeyEvent(keyCode, KeyUp, 10, false, false, false);
      var second := KeyEvent(keyCode, KeyDown, 15, false, false, false);
      var t := Run(Initial(keyCode), [first, again, up, second]);
      t.isDown && !t.shiftKey && t.timeDown == 15 && t.repeats == 1
  {
    var first := KeyEvent(keyCode, KeyDown, 0, false, false, true);
    var again := KeyEvent(keyCode, KeyDown, 4, false, false, true);
    var up := KeyEvent(keyCode, KeyUp, 10, false, false, false);
    var second := KeyEvent(keyCode, KeyDown, 15, false, false, false);
    RunAppend(Initial(keyCode), [first, again, up], [second]);
    RunAppend(Initial(keyCode), [first, again], [up]);
    RunAppend(Initial(keyCode), [first], [again]);
    assert [first, again, up] + [second] == [first, again, up, second];
    assert [first, again] + [up] == [first, again, up];
    assert [first] + [again] == [first, again];
  }
}
