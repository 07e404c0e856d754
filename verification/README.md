# AVR hotkey service — Dafny model

AVR (Audio Visual Recorder) is a background service. It waits for a keyboard
shortcut. When the shortcut fires, it plays a start sound, takes a
screenshot, sends it to a vision model, plays an error or complete sound, and
appends the analysis to a daily markdown file under a configured knowledge
root. This project models the deterministic core of `HotkeyService` in
`avr.py` and proves properties of it:

- **Hotkey parsing** (`Hotkey`): `_parse_hotkey` lower-cases the text,
  rewrites `"command+"` to `"cmd+"`, splits on `'+'` and returns the set of
  fields. `Split` and `Join` are proved inverse to each other. The parse is
  proved case-insensitive, non-empty and free of `'+'` and upper-case letters.
  For canonical fields it is proved to be exactly their set, so order and
  repetition do not matter. A leading `"command+"` or `"cmd+"` is proved to
  add exactly the key `"cmd"` to the parse of the rest, whatever the rest is.
- **Chord detection** (`Detector`): an immutable state holds the hotkey set,
  the set of held key names and the last trigger time (integer milliseconds,
  cooldown 1000). Key-down and key-up are pure steps. Keys are a tagged
  variant. Characters and the command key are tracked; every other named key
  is not. Over any event trace, successive firings are proved to be more than
  the cooldown apart, and a firing happens only at a key-down. A burst of
  key-downs inside one window is proved to fire at most once. A hotkey naming
  a key that is never tracked is proved never to fire.
- **Callback outcome** (`Feedback`): which cues `_default_callback` plays, in
  which order, and whether it appends. The screenshot text and the vision
  call's outcome are opaque inputs.
- **Knowledge store** (`Knowledge`): the daily file name and the exact text
  each append adds. The file system is a map from path to content.
- **Service** (`Service`): construction from the hotkey text, and a key-down
  that runs the callback when it fires. Concrete scenarios over the default
  shortcut are proved here.

Some consequences of the code as written are proved as lemmas:

- A trailing `"command"` is not rewritten, so a hotkey such as
  `"x+command"` can never fire.
- A chord matched inside the cooldown is dropped. The pressed set still
  equals the hotkey afterwards. After the cooldown, the next key-down of a
  hotkey key or of an untracked key (shift, say) fires it. Any other
  character key does not, because it makes the pressed set a proper superset.
- A failed analysis is still appended when a root is set.
- A successful analysis with no root ends on an error cue.

## Model

| member | source | states |
|---|---|---|
| `Hotkey.Lower` | avr.py:129 | lower-casing keeps the length and the separators, maps each upper-case letter to its lower-case counterpart, keeps every other character, and leaves no upper-case letter |
| `Hotkey.LowerConcat` | avr.py:129 | lowering a concatenation is the concatenation of the lowered parts |
| `Hotkey.LowerIdempotent` | avr.py:129 | lowering an already lowered text changes nothing |
| `Hotkey.ReplaceAllNoOccurrence` | avr.py:129 | `replace` leaves a text without an occurrence of the pattern unchanged |
| `Hotkey.ReplaceAll` | avr.py:129 | every character after `replace` comes from the input or from the replacement |
| `Hotkey.ReplaceAllKeepsCount` | avr.py:129 | replacing a pattern by a text with equally many `'+'` keeps the number of `'+'`, so rewriting `"command+"` to `"cmd+"` keeps the number of fields |
| `Hotkey.Split` | avr.py:129 | `split("+")` yields at least one field, no field contains `'+'`, and every field character comes from the input |
| `Hotkey.JoinSplit` | avr.py:129 | joining the fields of a split with `'+'` gives back the text |
| `Hotkey.SplitJoin` | avr.py:129 | splitting a `'+'`-join of separator-free fields gives back exactly those fields |
| `Hotkey.SplitLength` | avr.py:129 | a split has one more field than the text has `'+'` |
| `Hotkey.Parse` | avr.py:119-129 | the hotkey set is never empty, no key contains `'+'` or an upper-case letter, and a key is in it exactly when it is a field of the lowered, rewritten text |
| `Hotkey.Normalize` | avr.py:129 | the text that is split, lowered and then rewritten, holds no upper-case letter |
| `Hotkey.NormalizeCommandPrefix` | avr.py:129 | for every text t, a leading `"command+"` becomes `"cmd+"` and t is normalized on its own |
| `Hotkey.NormalizeCmdPrefix` | avr.py:129 | for every text t, a leading `"cmd+"` is kept and t is normalized on its own |
| `Hotkey.ParseCommandPrefix` | avr.py:129 | for every text t, `"command+"` + t parses to the keys of t plus `"cmd"`, so `"command+shift+x"` is `{"cmd"}` with the keys of `"shift+x"` |
| `Hotkey.ParseCmdPrefix` | avr.py:129 | for every text t, `"cmd+"` + t parses to the keys of t plus `"cmd"` as well |
| `Hotkey.ReplaceAllAround` | avr.py:129 | for a pattern whose only `'+'` is its last character, an occurrence anywhere is replaced and the texts before and after it are rewritten on their own |
| `Hotkey.NormalizeAroundCommand` | avr.py:129 | for all texts p and t, p + `"command+"` + t normalizes to the normalized p, then `"cmd+"`, then the normalized t |
| `Hotkey.ParseFieldThenCommand` | avr.py:129 | a lower-case field k followed by `"+command+"` and t parses to k, `"cmd"` and the keys of t, as `"shift+command+x"` gives `{"shift", "cmd", "x"}`; k must not end in `"command"`, or the two would form another alias |
| `Hotkey.NormalizeCanonical` | avr.py:129 | lowering and rewriting leave a text with no upper-case letter and no `"command+"` unchanged |
| `Hotkey.ParseIgnoresCase` | avr.py:129 | two texts that differ only in letter case parse to the same set |
| `Hotkey.ParseOfLowered` | avr.py:129 | parsing the lowered text gives the same set as parsing the text |
| `Hotkey.ParseFieldCount` | avr.py:129 | the set has at most one key per `'+'`-separated field |
| `Hotkey.ParseCanonicalJoin` | avr.py:129 | for lower-case separator-free fields with no `"command+"`, the parse is exactly the set of fields |
| `Hotkey.ParseOrderIrrelevant` | avr.py:129 | two such field lists with the same elements, in any order and with any repetition, parse to the same hotkey |
| `Detector.Init` | avr.py:110-114 | a new service holds no keys and has last trigger time 0 |
| `Detector.TrackedName` | avr.py:275-278 | a character key is tracked under its character, the command key under `"cmd"`, and every other named key is not tracked |
| `Detector.Hold` | avr.py:275-278 | a key-down adds only the tracked name of the key and leaves an untracked key's set unchanged |
| `Detector.Let` | avr.py:300-303 | a key-up removes only the tracked name of the key |
| `Detector.Press` | avr.py:264-289 | a key-down fires exactly when the held set equals the hotkey and more than the cooldown has passed; a firing clears the set and stamps the time; otherwise the time is kept; proper subsets and supersets never fire; an untracked key that does not fire changes nothing; only characters and `"cmd"` are ever held |
| `Detector.AnyHotkeyKeyHeld` | avr.py:306 | some key of the hotkey is still held exactly when the hotkey and the pressed set intersect |
| `Detector.Release` | avr.py:291-309 | a key-up never adds keys and removes the released key; with no hotkey key left the set is cleared, otherwise only the released key is gone; time and hotkey are unchanged |
| `Detector.Step` | avr.py:317-320 | a key-up never fires; a key-down is a press at its time stamp |
| `Detector.Run` | avr.py:264-309 | a trace fires at most once per event, and the final last-trigger time is the last firing, or the initial one when nothing fired |
| `Detector.HeldChordFiresOn` | avr.py:275-283 | with the pressed set equal to the hotkey and the cooldown over, a key-down fires exactly when the key is untracked or is a key of the hotkey |
| `Detector.RunConcat` | avr.py:264-309 | running one trace after another is running their concatenation: the firings add up and the final state carries over |
| `Detector.RunFiresSpaced` | avr.py:281-287 | every firing is more than the cooldown after the initial trigger time and after every earlier firing |
| `Detector.FiresPairwiseApart` | avr.py:281-287 | any two firings of a trace are more than the cooldown apart |
| `Detector.RunFiresAtKeyDowns` | avr.py:281-287 | a firing happens only at a key-down, at its time stamp |
| `Detector.QuietAfterTriggerInWindow` | avr.py:283 | after a trigger inside a window of one cooldown, no later key-down of that window fires |
| `Detector.BurstFiresAtMostOnce` | avr.py:281-287 | key-downs that all fall inside one cooldown window fire at most once |
| `Detector.RunKeepsWellFormed` | avr.py:275-303 | the pressed set only ever holds single characters and `"cmd"` |
| `Detector.UntrackableHotkeyNeverFires` | avr.py:275-283 | a hotkey that names a key other than a single character or `"cmd"` never fires |
| `Knowledge.FileName` | avr.py:192-193 | the daily file name is `running_knowledge_`, the date, then `.md` |
| `Knowledge.FileNameInjective` | avr.py:193 | different dates give different file names |
| `Knowledge.JoinPath` | avr.py:193 | the path starts with the root and ends with the file name, with a `/` inserted only when the root lacks one |
| `Knowledge.KnowledgeFile` | avr.py:189-193 | without a root the lookup fails with the "not set" message; otherwise it is the day's file under the root |
| `Knowledge.Entry` | avr.py:206-209 | an entry is the "Captured at" heading, the clock reading, a blank line, the analysis verbatim and the `---` trailer |
| `Knowledge.EntryDeterminesParts` | avr.py:206-209 | the clock reading and the analysis can be read back from an entry |
| `Knowledge.EntryContainsAnalysis` | avr.py:208 | the analysis occurs verbatim in its entry |
| `Knowledge.Append` | avr.py:195-213 | without a root nothing is written; otherwise the day's file, created empty if missing, gains the entry at its end, it contains the analysis, and every other file is unchanged |
| `Knowledge.AppendsAccumulate` | avr.py:206-209 | two appends on the same day leave the prior content followed by both entries in order |
| `Knowledge.AppendKeepsPrefix` | avr.py:206 | after an append the earlier content is a strict prefix of the file |
| `Feedback.AnalysisText` | avr.py:175-177 | a reply's text is passed through; a failure becomes the failure prefix followed by the error message and contains "Failed to analyze" |
| `Strings.Contains` | avr.py:250 | the substring test `sub in s`: a contained text is no longer than the text, and the empty text is contained in every text |
| `Feedback.AnalysisCue` | avr.py:250-253 | the second cue is an error exactly when the analysis text contains "Failed to analyze" |
| `Feedback.DefaultCallback` | avr.py:240-262 | the first cue is start; an empty screenshot gives only start, no analysis and no write; otherwise there are three cues, the second an error exactly when the text contains the marker, the third complete exactly when a root is set and error otherwise, and the store changes only by the append when a root is set |
| `Feedback.FailedAnalysisSignalsError` | avr.py:248-251 | a failed vision call is followed by start then error |
| `Feedback.FailedAnalysisStillAppended` | avr.py:248-260 | with a root set, a failed analysis gives start, error, complete, and the failure text is appended |
| `Feedback.SuccessWithoutStoreEndsInError` | avr.py:250-262 | a successful analysis with no root gives start, complete, error and writes nothing |
| `Feedback.ReplyMentioningFailureSignalsError` | avr.py:250-251 | a reply that happens to contain "Failed to analyze" is signalled as an error too |
| `Service.NewService` | avr.py:102-117 | a new service holds the parsed hotkey, no pressed keys, last trigger time 0, and the configured root |
| `Service.OnPress` | avr.py:281-287 | a non-firing key-down plays nothing and writes nothing; a firing one plays the callback's cues, starting with start, and applies its store change |
| `Service.OnRelease` | avr.py:291-309 | a key-up only changes the detector state |
| `Service.NormalizeCommandChord` | avr.py:129 | for any one-letter key k that is neither `'+'` nor upper case, normalisation rewrites `"command+k"` to `"cmd+k"` and leaves `"cmd+k"` unchanged |
| `Service.CommandChordParse` | avr.py:129 | for such a key, `"command+k"` and `"cmd+k"` both parse to the two-key set `{"cmd", k}` |
| `Service.DefaultsParseToCmdX` | avr.py:102 | the constructor default `"command+x"` parses to `{"cmd", "x"}` |
| `Service.CliDefaultParsesToCmdX` | avr.py:341 | the `--shortcut` default `"cmd+x"` parses to the same `{"cmd", "x"}` |
| `Service.MixedCaseDefaultParses` | avr.py:129 | `"Command+X"` parses to `{"cmd", "x"}` too, because the text is lowered before it is split |
| `Service.TrailingCommandNotRewritten` | avr.py:129 | in a text such as `"x+command"` the final `"command"` is not followed by `'+'`, so it is left as it is |
| `Service.TrailingCommandKept` | avr.py:129 | a one-letter key followed by `"+command"`, such as `"x+command"`, parses to that key and `"command"` |
| `Service.TrailingCommandNeverFires` | avr.py:275-283 | such a hotkey, `"x+command"` for one, never fires on any trace |
| `Service.ChordFires` | avr.py:275-287 | pressing command then x with nothing held fires once the cooldown has passed, leaving nothing held and stamping the time |
| `Service.ChordDropped` | avr.py:275-287 | pressing command then x inside the cooldown fires nothing and leaves both keys held |
| `Service.ChordReleased` | avr.py:300-307 | releasing x then command leaves nothing held and fires nothing |
| `Service.DefaultChordScenario` | avr.py:281-287 | command and x at 5000 ms fire; the same chord at 5500 ms and at exactly 6000 ms is dropped |
| `Service.HeldChordFiresOnNextKeyDown` | avr.py:275-287 | a `cmd+x` chord fired at 5000 and dropped at 5500 fires again on a shift key-down at 6001 |

## Left out

- Hotkey.Lower: lower-cases only the ASCII letters `A`–`Z`. Python's `str.lower` applies full Unicode case mapping, and that is not modelled.
- Key events whose key code carries no character (`char` is `None`) are not modelled: `Char` always carries a character.
- The `pynput` listener and the `start()` loop with its exit codes are OS input hooks. The model takes the event sequence as input instead.
- Command-line parsing (`parse_args`, `main`) is glue. Only its default shortcut appears, in `Service.CliDefaultParsesToCmdX`.
- Screenshot capture and PNG/base64 encoding are a foreign library. The capture is an opaque string, empty on failure.
- The vision-model call is a network call. Its outcome is an opaque reply text or error message.
- Sound playback (`play_sound`) is a platform-dependent side effect. Cues are recorded as list elements.
- Console printing is not modelled.
- Environment loading (`dotenv`, `os.getenv`) is process I/O. The knowledge root is a parameter.
- `os.makedirs` at construction is not modelled.
- `datetime.now()` is a clock. The date and the clock reading are string parameters. They are two separate readings, as in the code.
- `time.time()` floats are replaced by integer milliseconds, with the 1.0 s cooldown as 1000.
- Knowledge.Append: write failures other than a missing root (permissions, disk full) are not modelled. With a root set, the append always succeeds.
- Knowledge.JoinPath: models POSIX `os.path.join` only. Windows separators and drive letters are not modelled.
- The optional `callback` constructor argument is not modelled: `Service.NewService` and `Service.OnPress` always run the default callback, which is the only one `avr.py` installs.
- Exceptions escaping the callback are not modelled. Nor is the `AttributeError` swallowing in `_on_press` / `_on_release`, which only matters when a callback raises.
- The listener runs callbacks on its own thread. The model treats events as one sequential trace.
