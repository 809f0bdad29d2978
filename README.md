# Video recorder: camera control and recording loop

A Dafny model of the core of `video-recorder.py`, a small Tk/OpenCV program that shows the video of several network cameras and records them to AVI files. The model covers three parts:

- **The button bookkeeping** (`Recoder.__init__`, `show`, `record`, `exit`). The recorder keeps a dictionary with two entries per camera, one keyed by the camera's "Show Video" button and one keyed by its "Start Record" button. Each entry holds the flags `NAME`, `EXIT`, `PID`, `RECORD`, `TOGGLE`, `URL` and `DEPEND`, where `DEPEND` is the camera's other button.
  - Module `Control` states each handler as a function on a `Gui` value: the dictionary plus an enabled flag per button.
  - Module `Recorder` holds the class `Recorder`. Its fields `entries`, `enabled` and `order` are updated in place by methods that are proved to perform those functions.
  - `order` is the dictionary's insertion order. It is the order in which `exit` visits the keys.
- **The recording loop of `Recoder.play`** (module `Play`). Each iteration reads what it learns from the outside as a `FrameEvent`:
  - whether the capture is open;
  - whether a frame was read;
  - the RECORD flag;
  - the clock;
  - whether the new writer reports itself opened;
  - the EXIT flag.

  What the iteration does with its frame is an `Action`. The method `Play` runs the loop over a sequence of events and is proved to produce `Run`, the specification of the loop. The lemmas about `Run` state the segment rules.
- **The output file name** (module `Filename`). The file name is `<camera name> <YYYY-MM-DD HH-MM-SS>.avi`. It is proved to be parsed back into the name and the timestamp, and so is injective. The program actually passes the camera name through `strftime` as part of the format; see "## Findings".

A button's widget is reduced to whether it is enabled. The worker thread held in `PID` is reduced to "a worker is present". `join` is the worker having left its loop.

## Model

| member | source | states |
|---|---|---|
| Filename.DecimalRoundTrip | video-recorder.py:122 | a zero-padded `strftime` field prints only digits, exactly `width` of them when the number fits, and reads back as the number |
| Filename.StampRoundTrip | video-recorder.py:122 | the 19-character `YYYY-MM-DD HH-MM-SS` part parses back to the timestamp it was printed from |
| Filename.FileNameRoundTrip | video-recorder.py:122 | a recording's file name splits back into the camera name and the timestamp the file was opened at |
| Filename.FileNameInjective | video-recorder.py:122 | two file names are equal if and only if the camera names and the timestamps are both equal |
| Filename.StampFormat | video-recorder.py:122 | the format suffix ` %Y-%m-%d %H-%M-%S` expands to a space followed by the zero-padded stamp |
| Filename.AsWrittenAgrees | video-recorder.py:122 | for a camera name without `%`, the name the program computes equals the intended name |
| Filename.DayInName | video-recorder.py:122 | a `%d` inside the camera name is replaced by the day of the month |
| Filename.PercentInNameCollides | video-recorder.py:122 | on the first of a month, cameras `Cam%d` and `Cam01` write to the same file, and that file does not carry the name `Cam%d` |
| Control.AddCamera | video-recorder.py:42-43 | adding a camera's two entries leaves every other camera's entries and enabled flags unchanged |
| Control.Init | video-recorder.py:27-46 | the constructed dictionary has exactly the two buttons of every configured camera as keys, and every entry starts with its camera's name and URL, every flag false, no worker and `DEPEND` set to the other button; Show is enabled and Record disabled |
| Control.AddCameraKeepsInv | video-recorder.py:39-43 | adding a camera with both entries' flags false, Show enabled and Record disabled keeps the invariants |
| Control.InitInv | video-recorder.py:27-46 | the constructed state satisfies the invariants: RECORD agrees, Record is enabled only while showing, Show is disabled only while recording, only Show entries toggle |
| Control.KeyOrderLists | video-recorder.py:42-43 | keys are inserted camera by camera, Show button first, then Record button, and no other key appears |
| Control.InitKeys | video-recorder.py:42-43 | the insertion order lists exactly the dictionary's keys |
| Control.DependIsOther | video-recorder.py:42-43 | in a well-formed dictionary, each entry's `DEPEND` is the other button of the same camera, and that button is a key |
| Control.ShowOp | video-recorder.py:50-71 | showing sets TOGGLE, clears EXIT, creates a worker and enables Record; hiding clears TOGGLE, sets EXIT, drops the joined worker and disables Record; no other entry or button changes |
| Control.RecordOp | video-recorder.py:73-91 | RECORD flips on the pressed entry and on its `DEPEND` entry and on nothing else; no other field changes; the other button is disabled while recording and enabled otherwise |
| Control.PressKeepsShape | video-recorder.py:45-91 | a click keeps the set of keys, the `DEPEND` pairing, names and URLs, and "toggled implies worker present" |
| Control.Presses | video-recorder.py:45-91 | any sequence of clicks keeps the dictionary well formed over the same keys |
| Control.PressKeepsInv | video-recorder.py:50-91 | a click on an enabled button keeps the invariants |
| Control.PressesKeepInv | video-recorder.py:50-91 | any sequence of clicks keeps the invariants |
| Control.ClicksKeepInv | video-recorder.py:39-91 | from the constructed state, any sequence of clicks keeps RECORD agreeing on both entries, Record enabled exactly while showing, Show disabled exactly while recording, and only Show entries toggled |
| Control.RecordingImpliesShowing | video-recorder.py:56-91 | in a state satisfying the invariants, a recording camera is being shown and has a worker |
| Control.Visit | video-recorder.py:148 | hiding a key if it is toggled keeps the dictionary well formed |
| Control.ExitOp | video-recorder.py:148 | the exit handler keeps the dictionary well formed over the same keys |
| Control.ExitVisits | video-recorder.py:148 | after the exit handler, exactly the visited entries that were toggled went through the hide path, and every other entry is unchanged |
| Control.ExitStopsAll | video-recorder.py:57-148 | after exit no entry is toggled, every joined entry has dropped its worker, RECORD is untouched, and from a state satisfying the invariants no worker is left |
| Recorder.Recorder.constructor | video-recorder.py:27-46 | the constructor builds the state `Init` describes, with keys in insertion order, and the invariants hold |
| Recorder.Recorder.Show | video-recorder.py:50-71 | the in-place Show handler performs `ShowOp` |
| Recorder.Recorder.Record | video-recorder.py:73-91 | the in-place Record handler performs `RecordOp` |
| Recorder.Recorder.Click | video-recorder.py:45-46 | a click on an enabled button runs that button's handler; a click on a disabled button changes nothing |
| Recorder.Recorder.Exit | video-recorder.py:147-148 | the exit loop performs `ExitOp` over the keys in dictionary order and keeps the dictionary well formed |
| Play.Step | video-recorder.py:116-134 | one iteration keeps `out` bound whenever `new_file` is false, so a write never meets an unbound writer |
| Play.Run | video-recorder.py:115-139 | the loop performs at most one action per event |
| Play.RunStops | video-recorder.py:115-139 | each action was taken with the capture open, only the last action can have seen EXIT, and the run ends only when the events run out, the capture closes, or EXIT is seen |
| Play.Iteration | video-recorder.py:116-134 | the loop body, which names a new file by expanding the camera name plus ` %Y-%m-%d %H-%M-%S` with `strftime` and appending `.avi`, performs `Step` |
| Play.Play | video-recorder.py:98-141 | the worker produces exactly the actions of `Run` from `new_file = True` when the capture opened, and none otherwise |
| Play.RunAt | video-recorder.py:115-139 | the `i`-th action of a run is the step taken from the state reached after the first `i` events |
| Play.ReadFailureKeepsState | video-recorder.py:116-134 | a failed read shows nothing, writes nothing and changes neither `new_file` nor `out` |
| Play.NewFileUnlessArmed | video-recorder.py:113-132 | `new_file` is false exactly when an earlier frame opened a writer successfully and no frame read since had RECORD clear |
| Play.Classify | video-recorder.py:116-134 | each action of a run: no frame on a failed read; shown without recording exactly when RECORD is clear; an open (frame shown, not written) with the file name `strftime` makes of the camera name plus format, MJPG, 25 fps and the capture's size, succeeding as the writer reports, at the start of a segment; a write otherwise |
| Play.NewFileAfterRestart | video-recorder.py:131-132 | after a frame read with RECORD clear, the next recorded frame opens a new file |
| Play.UnobservedRestartAppends | video-recorder.py:116-132 | when RECORD is cleared and set again while reads fail, the next recorded frame is appended to the file already open, because RECORD is read only on frames that were read |
| Play.OpenedFileName | video-recorder.py:122 | for a camera name without `%`, every opened file is named `<name> <YYYY-MM-DD HH-MM-SS>.avi` after the moment of the open |
| Play.OpensShareFileIffSameSecond | video-recorder.py:122-123 | for a camera name without `%`, two opens of a run write to the same file if and only if they happen in the same second |
| Play.FailedOpenRetried | video-recorder.py:124-128 | after a failed open, the next recorded frame tries to open a writer again |
| Play.SegmentOrigin | video-recorder.py:120-130 | when `new_file` is false, `out` was opened successfully by an earlier frame, and every frame since failed to read or was written to it |
| Play.WrittenToSegmentWriter | video-recorder.py:120-130 | every written frame goes to the writer its segment opened successfully, with no other open and no RECORD-clear frame in between |

## Left out

- Tk widgets, layout, button texts, `mainloop` and `root.quit` are not modelled. A button is its enabled flag, and a click on a disabled button does nothing (`Click`).
- Threads are not modelled. `PID` is a flag saying a worker is present. `join` is taken as having waited for the worker's loop to end, and the worker's loop (`Play`) is modelled on its own, separately from the handlers that start and stop it.
- OpenCV calls are not modelled; their outcomes are fields of `FrameEvent`. This covers `VideoCapture`, `isOpened`, `read`, `imshow`, `waitKey`, `VideoWriter`, `write`, `release` and `destroyWindow`. The frames themselves are not modelled either: an action records only whether a frame was shown or written, and to which writer.
- The cv2 version branch and the queried `fps` are not modelled. The frame size is taken as given integers, so the float values and their `int()` conversion are left out.
- The clock is not modelled: `datetime.now()` is the `now` field of each event.
- JSON configuration loading and logging are not modelled; the configuration is a sequence of name/URL pairs.
- The writer is never released, not on a stop of recording and not at the end of the session. The model follows the code here; there is no close or flush step.
- `Filename.Strftime`: only the conversions `%Y %m %d %H %M %S %%` are modelled. Any other `%` sequence is copied verbatim. Timestamps are limited to years 1000-9999 in the round-trip lemmas, where `%Y` prints four digits.
- Play.NewFileAfterRestart: covers only a stop and restart of recording that some successfully read frame observes with RECORD clear. The loop reads RECORD only after a successful read, so a stop and restart that falls between two reads, or while reads fail, is not noticed and the recording continues in the old file (`Play.UnobservedRestartAppends`).
- Play.Play: the event sequence is finite, so a capture that stays open forever and never sees EXIT is represented only by its finite prefixes.
- Recorder.Recorder.Exit: the invariants are not claimed after exit. Hiding a camera that is recording leaves RECORD set while the camera is no longer shown, just as the code does.

## Findings

| source | as written | input that shows it | evidently intended | confidence | as-written member | corrected member |
|---|---|---|---|---|---|---|
| video-recorder.py:122 | the camera name is concatenated into the `strftime` format, so any `%` directive in the name is expanded | a camera named `Cam%d` recording on the first of a month writes to `Cam01 <stamp>.avi`, the same file as a camera named `Cam01` | the camera name copied verbatim in front of the stamp | not executed | Filename.PercentInNameCollides | Filename.FileNameInjective |

The recording loop in `Play` names its files as the code does, with `Filename.AsWrittenFileName`. For names without `%`, `Filename.AsWrittenAgrees` proves that this is the corrected name `Filename.FileName`. `Play.OpenedFileName` and `Play.OpensShareFileIffSameSecond` carry this over to the files a run opens.
