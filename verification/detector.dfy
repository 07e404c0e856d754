/**
 Chord detection (`HotkeyService._on_press` / `_on_release`). The state is
 the configured hotkey, the set of key names currently held and the time of
 the last trigger. Time is in whole milliseconds.
 */
module Detector {
  import opened Strings

  /** `TRIGGER_COOLDOWN = 1.0` seconds. */
  const Cooldown: int := 1000

  /** Name under which the command key enters the pressed set. */
  const CmdName: string := "cmd"

  /**
   A key event's key: one that carries a character, the command key, or any
   other named key (shift, ctrl, the right-hand command key, ...).
   */
  datatype Key = Char(c: char) | Cmd | Named(name: string)

  datatype State = State(hotkey: set<string>, pressed: set<string>, lastTrigger: int)

  datatype StepResult = StepResult(next: State, fired: bool)

  /** A fresh service: nothing held, last trigger at time 0. */
  function Init(hotkey: set<string>): (s: State)
    ensures s.hotkey == hotkey && s.pressed == {} && s.lastTrigger == 0
  {
    State(hotkey, {}, 0)
  }

  /** The name a key is tracked under, if it is tracked at all. */
  function TrackedName(k: Key): (r: Option<string>)
    ensures r.Some? <==> !k.Named?
    ensures k.Char? ==> r == Some([k.c])
    ensures k.Cmd? ==> r == Some(CmdName)
  {
    match k
    case Char(c) => Some([c])
    case Cmd => Some(CmdName)
    case Named(_) => None
  }

  /** Only single characters and "cmd" can ever be held. */
  predicate Trackable(name: string) {
    name == CmdName || |name| == 1
  }

  ghost predicate WellFormed(pressed: set<string>) {
    forall k :: k in pressed ==> Trackable(k)
  }

  /** The pressed set after a key-down, before the hotkey test. */
  function Hold(pressed: set<string>, k: Key): (r: set<string>)
    ensures pressed <= r
    ensures TrackedName(k).Some? ==> TrackedName(k).value in r
    ensures TrackedName(k).Some? ==> r - {TrackedName(k).value} == pressed - {TrackedName(k).value}
    ensures TrackedName(k).None? ==> r == pressed
  {
    match TrackedName(k)
    case Some(n) => pressed + {n}
    case None => pressed
  }

  /** The pressed set after a key-up, before the defensive clearing. */
  function Let(pressed: set<string>, k: Key): (r: set<string>)
    ensures r <= pressed
    ensures TrackedName(k).Some? ==> r == pressed - {TrackedName(k).value}
    ensures TrackedName(k).None? ==> r == pressed
  {
    match TrackedName(k)
    case Some(n) => pressed - {n}
    case None => pressed
  }

  /** `_on_press(key)` at time `now`. */
  function Press(s: State, k: Key, now: int): (r: StepResult)
    ensures r.next.hotkey == s.hotkey
    ensures r.fired <==> Hold(s.pressed, k) == s.hotkey && now - s.lastTrigger > Cooldown
    ensures r.fired ==> r.next.pressed == {} && r.next.lastTrigger == now
    ensures !r.fired ==> r.next.pressed == Hold(s.pressed, k) && r.next.lastTrigger == s.lastTrigger
    ensures Hold(s.pressed, k) < s.hotkey || s.hotkey < Hold(s.pressed, k) ==> !r.fired
    ensures now - s.lastTrigger <= Cooldown ==> !r.fired
    ensures k.Named? && !r.fired ==> r.next == s
    ensures WellFormed(s.pressed) ==> WellFormed(r.next.pressed)
  {
    var held := Hold(s.pressed, k);
    if held == s.hotkey && now - s.lastTrigger > Cooldown then
      StepResult(State(s.hotkey, {}, now), true)
    else
      StepResult(State(s.hotkey, held, s.lastTrigger), false)
  }

  /** True iff some key of the hotkey is still held. */
  predicate AnyHotkeyKeyHeld(hotkey: set<string>, pressed: set<string>)
    ensures AnyHotkeyKeyHeld(hotkey, pressed) <==> hotkey * pressed != {}
  {
    assert hotkey * pressed != {} ==> var k :| k in hotkey * pressed; k in hotkey && k in pressed;
    assert forall k :: k in hotkey && k in pressed ==> k in hotkey * pressed;
    exists k :: k in hotkey && k in pressed
  }

  /** `_on_release(key)`. */
  function Release(s: State, k: Key): (r: State)
    ensures r.hotkey == s.hotkey && r.lastTrigger == s.lastTrigger
    ensures r.pressed <= s.pressed
    ensures TrackedName(k).Some? ==> TrackedName(k).value !in r.pressed
    ensures (forall h :: h in s.hotkey ==> h !in Let(s.pressed, k)) ==> r.pressed == {}
    ensures (exists h :: h in s.hotkey && h in Let(s.pressed, k)) ==> r.pressed == Let(s.pressed, k)
    ensures WellFormed(s.pressed) ==> WellFormed(r.pressed)
  {
    var left := Let(s.pressed, k);
    if !AnyHotkeyKeyHeld(s.hotkey, left) then State(s.hotkey, {}, s.lastTrigger)
    else State(s.hotkey, left, s.lastTrigger)
  }

  /** Raw keyboard events; only key-downs are time-stamped. */
  datatype Event = KeyDown(key: Key, at: int) | KeyUp(key: Key)

  function Step(s: State, e: Event): (r: StepResult)
    ensures e.KeyUp? ==> !r.fired && r.next == Release(s, e.key)
    ensures e.KeyDown? ==> r == Press(s, e.key, e.at)
  {
    match e
    case KeyDown(k, t) => Press(s, k, t)
    case KeyUp(k) => StepResult(Release(s, k), false)
  }

  /** Final state of a run and the times at which the callback fired. */
  datatype Trace = Trace(final: State, fires: seq<int>)

  function Run(s: State, events: seq<Event>): (r: Trace)
    ensures r.final.hotkey == s.hotkey
    ensures |r.fires| <= |events|
    ensures |r.fires| == 0 ==> r.final.lastTrigger == s.lastTrigger
    ensures |r.fires| > 0 ==> r.final.lastTrigger == r.fires[|r.fires| - 1]
    decreases |events|
  {
    if events == [] then Trace(s, [])
    else
      var first := Step(s, events[0]);
      var rest := Run(first.next, events[1..]);
      var now := if first.fired then [events[0].at] else [];
      Trace(rest.final, now + rest.fires)
  }

  /** Running two traces one after the other is running their concatenation. */
  lemma {:induction false} RunConcat(s: State, a: seq<Event>, b: seq<Event>)
    ensures Run(s, a + b).final == Run(Run(s, a).final, b).final
    ensures Run(s, a + b).fires == Run(s, a).fires + Run(Run(s, a).final, b).fires
    decreases |a|
  {
    if a == [] {
      assert a + b == b;
    } else {
      var first := Step(s, a[0]);
      assert (a + b)[0] == a[0];
      assert (a + b)[1..] == a[1..] + b;
      RunConcat(first.next, a[1..], b);
      var now := if first.fired then [a[0].at] else [];
      var mid := Run(first.next, a[1..]);
      ConcatAssoc(now, mid.fires, Run(mid.final, b).fires);
    }
  }

  /**
   Debounce: every firing is more than the cooldown after the previous one
   (the first one after the initial trigger time), whatever the order of the
   time stamps.
   */
  lemma {:induction false} RunFiresSpaced(s: State, events: seq<Event>)
    ensures forall i :: 0 <= i < |Run(s, events).fires| ==>
      Run(s, events).fires[i] - s.lastTrigger > Cooldown
    ensures forall i, j :: 0 <= i < j < |Run(s, events).fires| ==>
      Run(s, events).fires[j] - Run(s, events).fires[i] > Cooldown
    decreases |events|
  {
    if events != [] {
      var first := Step(s, events[0]);
      RunFiresSpaced(first.next, events[1..]);
      if first.fired {
        assert first.next.lastTrigger == events[0].at;
        assert events[0].at - s.lastTrigger > Cooldown;
      }
    }
  }

  /** Any two firings of a run are more than the cooldown apart. */
  lemma FiresPairwiseApart(s: State, events: seq<Event>, i: int, j: int)
    requires 0 <= i < |Run(s, events).fires| && 0 <= j < |Run(s, events).fires| && i != j
    ensures Run(s, events).fires[i] - Run(s, events).fires[j] > Cooldown ||
            Run(s, events).fires[j] - Run(s, events).fires[i] > Cooldown
  {
    RunFiresSpaced(s, events);
  }

  /**
   A chord that is still held after the cooldown fires on the next key-down
   exactly when that key adds nothing outside the hotkey: a key of the hotkey,
   or an untracked key. Any other character makes the set a proper superset.
   */
  lemma HeldChordFiresOn(s: State, k: Key, now: int)
    requires s.pressed == s.hotkey && now - s.lastTrigger > Cooldown
    ensures Press(s, k, now).fired <==> (TrackedName(k).None? || TrackedName(k).value in s.hotkey)
  {
    if TrackedName(k).Some? && TrackedName(k).value !in s.hotkey {
      assert TrackedName(k).value in Hold(s.pressed, k);
    }
  }

  /** Some key-down of `events` happened at time `t`. */
  predicate KeyDownAt(events: seq<Event>, t: int) {
    exists j :: 0 <= j < |events| && events[j].KeyDown? && events[j].at == t
  }

  /** A firing happens only at a key-down, at that key-down's time stamp. */
  lemma {:induction false} RunFiresAtKeyDowns(s: State, events: seq<Event>)
    ensures forall i :: 0 <= i < |Run(s, events).fires| ==> KeyDownAt(events, Run(s, events).fires[i])
    decreases |events|
  {
    if events != [] {
      var first := Step(s, events[0]);
      var rest := Run(first.next, events[1..]);
      RunFiresAtKeyDowns(first.next, events[1..]);
      var r := Run(s, events);
      var off := if first.fired then 1 else 0;
      assert r.fires == (if first.fired then [events[0].at] else []) + rest.fires;
      forall i | 0 <= i < |r.fires|
        ensures KeyDownAt(events, r.fires[i])
      {
        if first.fired && i == 0 {
          assert events[0].KeyDown? && events[0].at == r.fires[0];
        } else {
          assert r.fires[i] == rest.fires[i - off];
          assert KeyDownAt(events[1..], rest.fires[i - off]);
          var j :| 0 <= j < |events[1..]| && events[1..][j].KeyDown? && events[1..][j].at == rest.fires[i - off];
          assert events[j + 1] == events[1..][j];
        }
      }
    }
  }

  /** Every key-down of `events` happened within `[start, start + Cooldown]`. */
  predicate WithinWindow(events: seq<Event>, start: int) {
    forall j :: 0 <= j < |events| && events[j].KeyDown? ==> start <= events[j].at <= start + Cooldown
  }

  lemma WithinWindowTail(events: seq<Event>, start: int)
    requires events != [] && WithinWindow(events, start)
    ensures WithinWindow(events[1..], start)
  {
    forall j | 0 <= j < |events[1..]| && events[1..][j].KeyDown?
      ensures start <= events[1..][j].at <= start + Cooldown
    {
      assert events[1..][j] == events[j + 1];
    }
  }

  /** Once a trigger happened at or after `start`, no key-down of the window fires again. */
  lemma {:induction false} QuietAfterTriggerInWindow(s: State, events: seq<Event>, start: int)
    requires WithinWindow(events, start)
    requires s.lastTrigger >= start
    ensures Run(s, events).fires == []
    decreases |events|
  {
    if events != [] {
      var first := Step(s, events[0]);
      assert !first.fired && first.next.lastTrigger == s.lastTrigger;
      WithinWindowTail(events, start);
      QuietAfterTriggerInWindow(first.next, events[1..], start);
    }
  }

  /**
   A burst of key-downs all inside one cooldown window fires at most once;
   the suppressed matches are dropped.
   */
  lemma {:induction false} BurstFiresAtMostOnce(s: State, events: seq<Event>, start: int)
    requires WithinWindow(events, start)
    ensures |Run(s, events).fires| <= 1
    decreases |events|
  {
    if events != [] {
      var first := Step(s, events[0]);
      WithinWindowTail(events, start);
      if first.fired {
        assert events[0].KeyDown? && first.next.lastTrigger == events[0].at >= start;
        QuietAfterTriggerInWindow(first.next, events[1..], start);
      } else {
        BurstFiresAtMostOnce(first.next, events[1..], start);
      }
    }
  }

  /** The pressed set only ever holds single characters and "cmd". */
  lemma {:induction false} RunKeepsWellFormed(s: State, events: seq<Event>)
    requires WellFormed(s.pressed)
    ensures WellFormed(Run(s, events).final.pressed)
    decreases |events|
  {
    if events != [] {
      RunKeepsWellFormed(Step(s, events[0]).next, events[1..]);
    }
  }

  /**
   A hotkey naming a key that is never tracked (for instance "ctrl", or
   "command" left unrewritten) can never fire.
   */
  lemma {:induction false} UntrackableHotkeyNeverFires(s: State, events: seq<Event>, name: string)
    requires WellFormed(s.pressed)
    requires name in s.hotkey && !Trackable(name)
    ensures Run(s, events).fires == []
    decreases |events|
  {
    if events != [] {
      var first := Step(s, events[0]);
      if events[0].KeyDown? {
        var held := Hold(s.pressed, events[0].key);
        assert WellFormed(held);
        assert name !in held;
      }
      assert !first.fired;
      UntrackableHotkeyNeverFires(first.next, events[1..], name);
    }
  }
}
