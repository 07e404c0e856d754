/**
 The service as a whole: a detector built from the parsed hotkey, the
 configured knowledge root and the store. A firing key-down runs the
 default callback; the outside world's answers for that run (screenshot,
 vision outcome, date and clock readings) are a parameter.
 */
module Service {
  import opened Strings
  import opened Hotkey
  import opened Detector
  import opened Knowledge
  import opened Feedback

  /** Default of the `hotkey` constructor argument, "command+x". */
  const ConstructorDefault: string := CommandAlias + "x"

  /** Default of the `--shortcut` command-line flag, "cmd+x". */
  const CliDefault: string := CmdAlias + "x"

  /** The constructor default typed with capitals, "Command+X". */
  const MixedCaseDefault: string := "Command" + [Sep] + "X"

  /** What the outside world delivers while one callback runs. */
  datatype World = World(screenshot: string, outcome: Analysis, day: string, clock: string)

  datatype Service = Service(detector: Detector.State, root: Option<string>, store: Store)

  /** `HotkeyService(hotkey)` with the default callback. */
  function NewService(hotkey: string, root: Option<string>, store: Store): (svc: Service)
    ensures svc.detector.hotkey == Parse(hotkey)
    ensures svc.detector.pressed == {} && svc.detector.lastTrigger == 0
    ensures svc.root == root && svc.store == store
  {
    Service(Init(Parse(hotkey)), root, store)
  }

  datatype Reaction = Reaction(next: Service, cues: seq<Cue>)

  /** A key-down: detector step, then the callback if it fired. */
  function OnPress(svc: Service, k: Key, now: int, world: World): (r: Reaction)
    ensures r.next.detector == Press(svc.detector, k, now).next
    ensures r.next.root == svc.root
    ensures !Press(svc.detector, k, now).fired ==> r.cues == [] && r.next.store == svc.store
    ensures Press(svc.detector, k, now).fired ==>
      var effects := DefaultCallback(world.screenshot, world.outcome, svc.root, world.day, world.clock, svc.store);
      |r.cues| >= 1 && r.cues[0] == Start && r.cues == effects.cues && r.next.store == effects.store
  {
    var step := Press(svc.detector, k, now);
    if step.fired then
      var effects := DefaultCallback(world.screenshot, world.outcome, svc.root, world.day, world.clock, svc.store);
      Reaction(Service(step.next, svc.root, effects.store), effects.cues)
    else
      Reaction(Service(step.next, svc.root, svc.store), [])
  }

  /** A key-up only touches the detector. */
  function OnRelease(svc: Service, k: Key): (r: Service)
    ensures r.detector == Release(svc.detector, k)
    ensures r.root == svc.root && r.store == svc.store
  {
    Service(Release(svc.detector, k), svc.root, svc.store)
  }

  /** A one-letter key that lowering leaves alone and that is not the separator. */
  predicate PlainKey(k: string) {
    |k| == 1 && k[0] != Sep && !IsUpper(k[0])
  }

  lemma NoUpperAliases()
    ensures NoUpper(CommandAlias) && NoUpper(CmdAlias)
  {
    assert forall i :: 0 <= i < |CommandAlias| ==> CommandAlias[i] in "command+";
    assert forall i :: 0 <= i < |CmdAlias| ==> CmdAlias[i] in "cmd+";
  }

  /** "command+k" is rewritten to "cmd+k"; "cmd+k" is left alone. */
  lemma NormalizeCommandChord(k: string)
    requires PlainKey(k)
    ensures Normalize(CommandAlias + k) == CmdAlias + k
    ensures Normalize(CmdAlias + k) == CmdAlias + k
  {
    NoUpperAliases();
    var long := CommandAlias + k;
    var short := CmdAlias + k;
    assert NoUpper(long) by {
      assert forall i :: 0 <= i < |long| ==> long[i] == (if i < 8 then CommandAlias[i] else k[0]);
    }
    assert NoUpper(short) by {
      assert forall i :: 0 <= i < |short| ==> short[i] == (if i < 4 then CmdAlias[i] else k[0]);
    }
    assert Lower(long) == long;
    assert Lower(short) == short;
    assert long[..8] == CommandAlias && long[8..] == k;
    assert ReplaceAll(long, CommandAlias, CmdAlias) == CmdAlias + ReplaceAll(k, CommandAlias, CmdAlias);
  }

  /** "command+k" and "cmd+k" both parse to the chord of command and k. */
  lemma CommandChordParse(k: string)
    requires PlainKey(k)
    ensures Parse(CommandAlias + k) == {"cmd", k}
    ensures Parse(CmdAlias + k) == {"cmd", k}
  {
    NormalizeCommandChord(k);
    assert Sep !in k;
    SplitTwo("cmd", k);
    assert "cmd" + [Sep] + k == CmdAlias + k;
    ParseIsFieldSet(CommandAlias + k);
    ParseIsFieldSet(CmdAlias + k);
    assert Elements(["cmd", k]) == {"cmd", k};
  }

  /** The constructor's default names the chord of command and x. */
  lemma DefaultsParseToCmdX()
    ensures Parse(ConstructorDefault) == {"cmd", "x"}
  {
    CommandChordParse("x");
  }

  /** The command-line default names the same chord. */
  lemma CliDefaultParsesToCmdX()
    ensures Parse(CliDefault) == {"cmd", "x"}
  {
    CommandChordParse("x");
  }

  lemma LowerMixedCaseDefault()
    ensures Lower(MixedCaseDefault) == ConstructorDefault
  {
    var l := Lower(MixedCaseDefault);
    assert MixedCaseDefault[0] == 'C' && MixedCaseDefault[8] == 'X';
    assert l[0] == 'c' && l[8] == 'x';
    assert forall i :: 1 <= i < 8 ==> l[i] == MixedCaseDefault[i] == ConstructorDefault[i];
    assert l == ConstructorDefault;
  }

  /** Typing the default with capitals, "Command+X", changes nothing. */
  lemma MixedCaseDefaultParses()
    ensures Parse(MixedCaseDefault) == {"cmd", "x"}
  {
    LowerMixedCaseDefault();
    LowerIdempotent(ConstructorDefault);
    ParseIgnoresCase(MixedCaseDefault, ConstructorDefault);
    DefaultsParseToCmdX();
  }

  /** The hotkey text `k+command`, such as "x+command". */
  function TrailingCommand(k: string): string {
    k + [Sep] + "command"
  }

  lemma TrailingCommandNotRewritten(k: string)
    requires PlainKey(k)
    ensures Normalize(TrailingCommand(k)) == TrailingCommand(k)
  {
    var s := TrailingCommand(k);
    assert s[1] == Sep;
    assert forall i :: 2 <= i < |s| ==> s[i] == "command"[i - 2];
    assert NoUpper(s);
    forall i ensures !OccursAt(s, CommandAlias, i) {
      if i == 0 {
        assert s[0..8][1] == Sep != CommandAlias[1];
      } else if i == 1 {
        assert s[1..9][0] == Sep != CommandAlias[0];
      }
    }
    NormalizeCanonical(s);
  }

  /** "command" is only rewritten in front of '+': a trailing one stays as it is. */
  lemma TrailingCommandKept(k: string)
    requires PlainKey(k)
    ensures Parse(TrailingCommand(k)) == {k, "command"}
  {
    var fields := [k, "command"];
    assert Split(Normalize(TrailingCommand(k))) == fields by {
      TrailingCommandNotRewritten(k);
      assert Sep !in k;
      SplitTwo(k, "command");
    }
    ParseIsFieldSet(TrailingCommand(k));
    assert Elements(fields) == {k, "command"};
  }

  /** So a hotkey ending in "command", such as "x+command", never fires, whatever is typed. */
  lemma TrailingCommandNeverFires(k: string, events: seq<Event>)
    requires PlainKey(k)
    ensures Run(Init(Parse(TrailingCommand(k))), events).fires == []
  {
    TrailingCommandKept(k);
    assert !Trackable("command");
    UntrackableHotkeyNeverFires(Init(Parse(TrailingCommand(k))), events, "command");
  }

  /** The default chord as a set of key names. */
  const CmdX: set<string> := {"cmd", "x"}

  /** Command then x, both at time `t`. */
  function ChordAt(t: int): seq<Event> {
    [KeyDown(Cmd, t), KeyDown(Char('x'), t)]
  }

  const ReleaseChord: seq<Event> := [KeyUp(Char('x')), KeyUp(Cmd)]

  /** Pressing the chord from nothing held fires once the cooldown has passed. */
  lemma ChordFires(s: Detector.State, t: int)
    requires s.hotkey == CmdX && s.pressed == {}
    requires t - s.lastTrigger > Cooldown
    ensures Run(s, ChordAt(t)) == Trace(Detector.State(CmdX, {}, t), [t])
  {
    var s1 := Press(s, Cmd, t).next;
    assert s1 == Detector.State(CmdX, {"cmd"}, s.lastTrigger);
    assert Hold({"cmd"}, Char('x')) == CmdX;
    assert [KeyDown(Char('x'), t)][1..] == [];
    var step := Step(s1, KeyDown(Char('x'), t));
    assert step == StepResult(Detector.State(CmdX, {}, t), true);
    assert Run(step.next, []) == Trace(step.next, []);
    assert [t] + [] == [t];
    var last := Run(s1, [KeyDown(Char('x'), t)]);
    assert last == Trace(Detector.State(CmdX, {}, t), [t]);
    assert ChordAt(t)[1..] == [KeyDown(Char('x'), t)];
  }

  /** Pressing the chord inside the cooldown is dropped; the keys stay held. */
  lemma ChordDropped(s: Detector.State, t: int)
    requires s.hotkey == CmdX && s.pressed == {}
    requires t - s.lastTrigger <= Cooldown
    ensures Run(s, ChordAt(t)) == Trace(Detector.State(CmdX, CmdX, s.lastTrigger), [])
  {
    var s1 := Press(s, Cmd, t).next;
    assert s1 == Detector.State(CmdX, {"cmd"}, s.lastTrigger);
    assert Hold({"cmd"}, Char('x')) == CmdX;
    assert [KeyDown(Char('x'), t)][1..] == [];
    var step := Step(s1, KeyDown(Char('x'), t));
    assert step == StepResult(Detector.State(CmdX, CmdX, s.lastTrigger), false);
    assert Run(step.next, []) == Trace(step.next, []);
    var last := Run(s1, [KeyDown(Char('x'), t)]);
    assert last == Trace(Detector.State(CmdX, CmdX, s.lastTrigger), []);
    assert ChordAt(t)[1..] == [KeyDown(Char('x'), t)];
  }

  /** Letting go of both keys leaves nothing held and fires nothing. */
  lemma ChordReleased(s: Detector.State)
    requires s.hotkey == CmdX && s.pressed <= CmdX
    ensures Run(s, ReleaseChord) == Trace(Detector.State(CmdX, {}, s.lastTrigger), [])
  {
    var s1 := Release(s, Char('x'));
    assert s1.pressed <= {"cmd"};
    assert ReleaseChord[1..] == [KeyUp(Cmd)];
    assert Release(s1, Cmd).pressed == {};
  }

  /**
   Holding command and x fires once; the same chord 500 ms later is
   dropped, and so is a third one at exactly the cooldown.
   */
  lemma DefaultChordScenario()
    ensures Run(Init(CmdX), ChordAt(5000) + ReleaseChord + ChordAt(5500) + ReleaseChord + ChordAt(6000)).fires
      == [5000]
  {
    var s0 := Init(CmdX);
    var fired := Detector.State(CmdX, {}, 5000);
    var held := Detector.State(CmdX, CmdX, 5000);
    ChordFires(s0, 5000);
    ChordReleased(fired);
    ChordDropped(fired, 5500);
    ChordReleased(held);
    ChordDropped(fired, 6000);
    RunConcat(s0, ChordAt(5000), ReleaseChord);
    RunConcat(s0, ChordAt(5000) + ReleaseChord, ChordAt(5500));
    RunConcat(s0, ChordAt(5000) + ReleaseChord + ChordAt(5500), ReleaseChord);
    RunConcat(s0, ChordAt(5000) + ReleaseChord + ChordAt(5500) + ReleaseChord, ChordAt(6000));
  }

  /**
   A chord matched inside the cooldown is not queued. The pressed set still
   equals the hotkey, so an untracked key's key-down after the cooldown, here
   shift's, fires it (see `Detector.HeldChordFiresOn` for which keys do).
   */
  lemma HeldChordFiresOnNextKeyDown()
    ensures Run(Init(CmdX), ChordAt(5000) + ChordAt(5500) + [KeyDown(Named("shift"), 6001)]).fires
      == [5000, 6001]
  {
    var s0 := Init(CmdX);
    var fired := Detector.State(CmdX, {}, 5000);
    var held := Detector.State(CmdX, CmdX, 5000);
    ChordFires(s0, 5000);
    ChordDropped(fired, 5500);
    HeldChordFiresOn(held, Named("shift"), 6001);
    assert Run(held, [KeyDown(Named("shift"), 6001)]).fires == [6001];
    RunConcat(s0, ChordAt(5000), ChordAt(5500));
    RunConcat(s0, ChordAt(5000) + ChordAt(5500), [KeyDown(Named("shift"), 6001)]);
  }
}
