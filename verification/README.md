# A Dafny model of the GPU video compressor's core

The compressor walks a directory tree and re-encodes every `.mkv` file it finds
with ffmpeg. It targets a bitrate and a 1440x1080 scale, using either the NVENC
GPU encoder or libx264. It reports progress through optional callbacks and
honours a cancellation flag. This project models the three functions that do
this work in `compressor_gpu_GUI.py`:

- `get_video_duration` runs `ffmpeg -i <input>` and reads the total duration
  off the first diagnostic line carrying `Duration: H:M:S.f`.
- `compress_video` starts the encoder and follows its diagnostic stream line by
  line. Before each line it polls the flag. Each `time=H:M:S.f` timestamp
  becomes a fraction, a remaining time and a file name, sent to whichever
  callbacks are present. Any exception ends the job.
- `compress_videos_in_directory` walks the tree and keeps the `.mkv` names,
  compared case-insensitively. It skips an input when the output directory
  already holds an entry with the same base name. Otherwise it compresses the
  input and stops when the flag is seen after a job. A run that is not stopped
  ends with the configured shutdown or hibernate command.

Modules:

- `Wrappers`: `Option` and the first-hit search.
- `Text`: the Python string and path helpers the code relies on: `int` of
  digits, `str.lower`, `str.endswith`, `split('\n')`, `os.path.splitext`,
  `join` and `basename`.
- `Stamp`: the two regular expressions, as a position-by-position matcher
  `MatchAt`. It is proved equal to a declarative description `Matches`, and
  `Search` is proved leftmost, as `re.search` is.
- `Probe`: `get_video_duration`.
- `Transcode`: `compress_video`.
- `Batch`: `compress_videos_in_directory`.

**Modelling choices:**

- **Processes.** Each external process is an input to the model: the probe's
  diagnostic text, and the encoder's diagnostic lines. `None` means the process
  could not be started.
- **The flag.** It is a `Token` that is raised once, before poll number `setAt`,
  and never lowered. Polls are numbered in the order they happen: one before
  every line of the encoder's stream, and one after every job of the batch.
- **The output listing.** The output directory as `os.listdir` sees it is the
  initial set of names plus the outputs of the jobs that ran. Whether an encoder
  run leaves its output behind is an input too (`leavesOutput`).
- **Arithmetic.** Durations and timestamps are exact reals.
- **No flag.** `terminate_flag=None`, the default of both `compress_video` and
  `compress_videos_in_directory`, is the `Token` with no `setAt`, which is
  never seen.
- **Late flags.** The flag is checked only before each line of an encoder's
  stream and after each job that was not skipped. When the flag is raised
  after a job's final check, when it is seen depends on what comes next:
  - The next job starts its encoder and the encoder writes a line: the flag is
    seen at that first line, after the probe and the encoder have started.
  - The next job's probe finds no duration: `compress_video` returns before
    starting the encoder. The flag is seen at the check that follows the job
    (line 105).
  - The next job's encoder writes no line: the flag is also seen at the check
    that follows the job (line 105).
  - Every remaining candidate is skipped: line 101 continues past the check, so
    the flag is never looked at again. The batch counts as not stopped and runs
    the shutdown or hibernate command (lines 108-113), although the flag is up.
    `Batch.FlagAmongSkipsStillPowersOff` proves this, and
    `Batch.FlagRaisedYetShutdown` gives an instance. So the power action does
    not mean "no stop was asked for". It only means no job saw the flag.

## Model

| member | source | states |
|---|---|---|
| Text.DigitsValue | compressor_gpu_GUI.py:24-26 | `int` of a run of ASCII digits has a value below 10 to the power of its length |
| Text.DecimalValue | compressor_gpu_GUI.py:26 | the seconds group `W.F` reads as a value between `W` and `W + 1` |
| Text.DigitsRoundTrip | compressor_gpu_GUI.py:24-25 | `int` reads back the decimal spelling of every natural number |
| Text.LeadingZeros | compressor_gpu_GUI.py:24-26 | leading zeros do not change what `int` reads, so ffmpeg's `00` and `01` read as 0 and 1 |
| Text.Lower | compressor_gpu_GUI.py:96 | the lowering used by the `.mkv` test maps each character on its own: ASCII capitals and the KELVIN SIGN to their lower-case letters, everything else unchanged |
| Text.SplitExt | compressor_gpu_GUI.py:98 | `os.path.splitext` splits the name into root and extension, and the two glue back to the name; the extension is empty or a dot followed by dot-free text, and its root is then not all dots |
| Text.SplitExtUnique | compressor_gpu_GUI.py:98 | splitext picks the one split whose extension is well formed and whose root has a character other than a dot |
| Text.SplitExtNone | compressor_gpu_GUI.py:98 | when splitext finds no extension, no split of the name could have produced one |
| Text.Join | compressor_gpu_GUI.py:97 | `os.path.join` ends with the joined name and puts exactly one `/` between a plain directory and a relative name |
| Text.Basename | compressor_gpu_GUI.py:83 | `os.path.basename` is the longest `/`-free ending of the path: the path ends with it, it holds no `/`, and a `/` comes right before it unless it is the whole path |
| Text.BasenameOfJoin | compressor_gpu_GUI.py:83 | the base name of a joined path is the name joined on |
| Text.SplitLines | compressor_gpu_GUI.py:21 | `split('\n')` yields at least one piece, no piece holds a newline, and joining the pieces with newlines gives back the text |
| Text.SplitJoinLines | compressor_gpu_GUI.py:21 | splitting undoes joining for newline-free pieces |
| Stamp.Seconds | compressor_gpu_GUI.py:24-27 | a match denotes `H*3600 + M*60 + S` seconds, between the whole-second value and one second past it |
| Stamp.MatchAtIff | compressor_gpu_GUI.py:22 | characterises `MatchAt`, the pattern anchored at one position: the matcher succeeds at a position with given groups exactly when the pattern, with its greedy last `\d+`, matches there with those groups |
| Stamp.MatchAtSound | compressor_gpu_GUI.py:22 | every match the matcher reports is a match of the pattern |
| Stamp.MatchAtComplete | compressor_gpu_GUI.py:22 | every match of the pattern is found by the matcher, with the same groups |
| Stamp.SearchLeftmost | compressor_gpu_GUI.py:22 | characterises `Search`, the model of `re.search` used at lines 22 and 69: it reports a match at some position with none at any earlier one, and reports nothing exactly when the pattern matches nowhere |
| Stamp.SearchFinds | compressor_gpu_GUI.py:69 | a match with no match before it is the one `re.search` reports |
| Probe.FirstMarked | compressor_gpu_GUI.py:21-28 | the loop stops at the first line with a duration match, and it finds none exactly when no line matches |
| Probe.DurationOf | compressor_gpu_GUI.py:20-31 | the duration is that of the first matching line; it is absent, meaning the `ValueError`, exactly when no line matches |
| Probe.ProbeDuration | compressor_gpu_GUI.py:14-33 | a probed duration is never negative |
| Probe.DurationIgnoresLaterLines | compressor_gpu_GUI.py:28 | lines after the first duration line do not affect the result |
| Probe.DurationOfRendered | compressor_gpu_GUI.py:21-27 | a line opening with a rendered `Duration: H:M:S.f` probes to exactly its seconds when no earlier line carries a duration |
| Probe.DurationExample | compressor_gpu_GUI.py:22-27 | the banner `Duration: 00:01:30.50, start: ...` probes to 90.5 seconds |
| Transcode.Codec | compressor_gpu_GUI.py:47 | `h264_nvenc` exactly when the GPU is chosen, `libx264` exactly when it is not |
| Transcode.Command | compressor_gpu_GUI.py:48-56 | the encoder's argument vector: input, verbatim bitrate, chosen codec, audio copied, fixed scale, output last |
| Transcode.ParseCommandInverse | compressor_gpu_GUI.py:48-56 | the job is recovered from its command line, so distinct jobs give distinct commands |
| Transcode.CommandOfParsed | compressor_gpu_GUI.py:48-56 | every argument vector of the encoder's shape is the command of the job read from it |
| Transcode.FireAll | compressor_gpu_GUI.py:77-83 | each timestamp fires one event per callback present |
| Transcode.LineTime | compressor_gpu_GUI.py:69-74 | a line has an elapsed time exactly when it holds a `time=` match, and that time is never negative |
| Transcode.Supervise | compressor_gpu_GUI.py:60-83 | the stream loop polls at most once per line. Completing means it polled once per line. Cancelling means its last poll saw the flag. The only failure is the zero division, which needs a progress callback and a zero duration |
| Transcode.SuperviseUnseen | compressor_gpu_GUI.py:60-67 | no poll before the loop's last one saw the flag, and none at all when the loop completed |
| Transcode.SuperviseUnrolls | compressor_gpu_GUI.py:60-83 | lines whose polls do not see the flag contribute exactly the events of their timestamps, in order, and the loop continues with the remaining lines |
| Transcode.SuperviseCompletes | compressor_gpu_GUI.py:60-83 | with the flag never seen and no failing division, the loop reads every line and fires the events of every timestamp |
| Transcode.SuperviseCancels | compressor_gpu_GUI.py:60-67 | the flag first seen before line `k` cancels there; only the lines before `k` fired events |
| Transcode.CancelIgnoresLaterLines | compressor_gpu_GUI.py:60-67 | the lines after the one at which the flag is seen make no difference |
| Transcode.SuperviseFails | compressor_gpu_GUI.py:77-78 | a zero duration with a progress callback fails at the first timestamp line, before any event |
| Transcode.UnmarkedLinesAreSilent | compressor_gpu_GUI.py:69-70 | lines without a timestamp fire no callback |
| Transcode.FractionsOfSamples | compressor_gpu_GUI.py:77-78 | the progress callback receives `elapsed / total` for every timestamp in order, and nothing when absent |
| Transcode.FractionsMonotone | compressor_gpu_GUI.py:77-78 | timestamps that never go back give progress fractions that never go back |
| Transcode.EventsBounded | compressor_gpu_GUI.py:77-81 | with every timestamp within the duration, fractions lie in [0, 1] and remaining times are not negative |
| Transcode.FractionUnclamped | compressor_gpu_GUI.py:78-81 | a timestamp past the duration reports a fraction above 1 and a negative remaining time |
| Transcode.EventTriples | compressor_gpu_GUI.py:77-83 | with all callbacks present, each timestamp fires progress, remaining, then file name |
| Transcode.CompressVideo | compressor_gpu_GUI.py:38-88 | a started encoder runs the job's command. A job with no command started failed, fired nothing and polled nothing. Completing or cancelling needs a stream. Cancelling means the last poll saw the flag |
| Transcode.NoDurationNoTranscode | compressor_gpu_GUI.py:30-31 | without a duration line the encoder never starts, nothing fires and the flag is not polled |
| Transcode.CompressVideoCompletes | compressor_gpu_GUI.py:38-86 | an uninterrupted job runs the job's command and reports every timestamp against the probed duration for the input's base name |
| Transcode.CompressVideoCancels | compressor_gpu_GUI.py:60-67 | a job whose flag is first seen before line `k` reports only the timestamps before `k` |
| Transcode.CompressVideoZeroDuration | compressor_gpu_GUI.py:77-78 | a zero probed duration with a progress callback fails the job at its first timestamp line |
| Batch.JobFor | compressor_gpu_GUI.py:97-104 | the job reads the found file and writes its output name into the output directory with the configured bitrate and codec. For a plain directory and a relative name, the input path is exactly `root/file` and the output path exactly `output_dir/base+extension`. For names without `/`, the input path's base name is the file name (the one the file callback reports) and the output path's base name is the output name (the one the skip rule later finds) |
| Batch.IsCandidate | compressor_gpu_GUI.py:96 | the `.mkv` test `file.lower().endswith('.mkv')`, for every name: a candidate exactly when its last four characters are `.`, `m`/`M`, `k`/`K`/KELVIN SIGN, `v`/`V`, whatever comes before |
| Batch.CandidateExamples | compressor_gpu_GUI.py:96 | the `.mkv` test ignores case and looks only at the end of the name |
| Batch.Candidates | compressor_gpu_GUI.py:94-96 | the entries the batch considers, in walk order: every one passes the `.mkv` test and there are no more of them than the walk yields |
| Batch.CandidatesMembers | compressor_gpu_GUI.py:94-96 | an entry is considered exactly when the walk yields it and its name ends in `.mkv`, in any case |
| Batch.WalkWith | compressor_gpu_GUI.py:94-106 | a walk that the flag stopped ended with a processed job after which the flag was seen |
| Batch.WalkVisitsCandidates | compressor_gpu_GUI.py:94-106 | the steps follow the candidates in walk order: all of them, or a prefix ending where the flag stopped the walk |
| Batch.WalkSkips | compressor_gpu_GUI.py:98-101 | a candidate is skipped exactly when the output directory, as it stands when the candidate is reached, has an entry with its base name |
| Batch.WalkStopsAtFlag | compressor_gpu_GUI.py:105-106 | the walk stops after the first job after which the flag is seen, and not before |
| Batch.WalkListing | compressor_gpu_GUI.py:99 | the final listing is the initial one plus the outputs the jobs left behind |
| Batch.WalkFacts | compressor_gpu_GUI.py:94-106 | characterises `Walk`, the nested loops of `compress_videos_in_directory`: all of the above for the walk of `compress_videos_in_directory`, and every job runs its own entry's command |
| Batch.CancelEndsBatch | compressor_gpu_GUI.py:105-106 | a cancelled job is the last one run, the batch counts as stopped, and no power action follows |
| Batch.PostCommand | compressor_gpu_GUI.py:108-113 | `shutdown` gives `shutdown /s /t 1`, `hibernate` gives `shutdown /h /t 1`, anything else gives no command |
| Batch.RunBatch | compressor_gpu_GUI.py:90-113 | a power command is issued exactly when the run was not stopped and one of the two tasks was chosen |
| Batch.WalkSkipsAll | compressor_gpu_GUI.py:98-101 | when every candidate's base name is already in the listing, everything is skipped, nothing is written and the flag is never polled |
| Batch.OutputRoot | compressor_gpu_GUI.py:98-103 | characterises `OutputName`, `base_name + file_extension`: with a dotted extension, the output's base name is the input's base name |
| Batch.WalkCovers | compressor_gpu_GUI.py:98-104 | after an unstopped walk whose jobs all left outputs, every candidate's base name is in the listing |
| Batch.RerunIsIdle | compressor_gpu_GUI.py:90-113 | running the batch again on the same tree after such a run compresses nothing, changes nothing and issues the same power command |
| Batch.FlagAmongSkipsStillPowersOff | compressor_gpu_GUI.py:99-113 | when every candidate already has an output, everything is skipped, the flag is never checked, and the power command runs whatever the flag's state |
| Batch.FlagRaisedYetShutdown | compressor_gpu_GUI.py:99-113 | with the flag up from the start, one covered `.mkv` and `shutdown` chosen, the batch issues `shutdown /s /t 1` |
| Batch.DotlessExtensionRedoes | compressor_gpu_GUI.py:98-103 | an extension typed without its dot (`mp4`) names the output `clipmp4`, which does not count as an output of `clip.mkv` |

## Left out

**Not modelled:**

- Process I/O: spawning ffmpeg, `terminate`, `wait` and exit codes. The captured text and lines are inputs, and a process that cannot start is `None`.
- `os.walk` order and `os.listdir`: the walk is an input sequence of (directory, name) entries. `os.makedirs` of the output directory is not modelled.
- `os.system`: the model only yields the command string.
- The console printing, the `rich` progress bar, and the elapsed wall-clock time (`time.time`).
- The tkinter GUI, the worker thread, and the `threading.Event`. The event becomes the poll-numbered `Token`.
- Floating point: `float` parsing and the division are exact reals, so there is no rounding.
- `\d` beyond ASCII digits: Python's `\d` and `int` also accept other Unicode decimal digits.
- `str.lower` beyond the ASCII capitals and the KELVIN SIGN, the only other character whose lower-case form can take part in `.mkv`.
- `os.path` on Windows: `join` and `basename` use the POSIX `/` separator. `splitext` is applied to bare names, which is how the code calls it.
- Text decoding (`encoding='utf-8'`, where undecodable bytes raise) and universal newlines in the encoder's stream. The stream is a sequence of lines.
- The probe's command line `ffmpeg -i <input>` (line 17) is not modelled. It is fixed, and the probe's diagnostic text is an input.
- The `except subprocess.CalledProcessError` branch of `get_video_duration` (lines 34-36): `subprocess.run` is called without `check=True`, so that exception never occurs.
- The `total_duration is None` branch of `compress_video` (lines 41-43): `get_video_duration` raises instead of returning `None`, so this branch cannot run. The missing duration ends in the `except` of lines 87-88, modelled as `Failed(NoDuration)`.

**Weaker contracts:**

- Text.Lower: Python's `str.lower` applies the full Unicode case mapping, which can lengthen a name: U+0130 lowers to two code points, `i` followed by U+0307. The model lowers only the ASCII capitals and the KELVIN SIGN, one character for one, and leaves every other character unchanged. This cannot change the `.mkv` test. Apart from the ASCII characters and the KELVIN SIGN, U+0130 is the only character whose lower-case form contains an ASCII letter or a dot. If it is among the last four characters of a name, the lowered name's last four characters contain its U+0307, so neither version ends in `.mkv`. If it is earlier, the last four characters lower one for one in both versions.

- Transcode.EventsBounded: fractions in [0, 1] and non-negative remaining times hold only when no timestamp exceeds the probed duration. The code does not clamp either value, and `Transcode.FractionUnclamped` shows a fraction of 2 and a remaining time of -1.
- Batch.RerunIsIdle: the idle rerun needs an extension that starts with a dot and has no other dot. The GUI's extension box is editable, and `Batch.DotlessExtensionRedoes` shows that `mp4` without the dot makes the next run compress the same file again.
