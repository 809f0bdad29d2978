/** The worker loop of one camera: read a frame, show it, and, while the
    camera's RECORD flag is set, open a new output file at the start of each
    recording segment and append the frames that follow to it.  Everything the
    loop learns from the outside in one iteration is a `FrameEvent`; what it does
    with the frame is an `Action`. */
module Play {
  import opened Filename

  /** What one iteration observes, in the order the loop asks:
      `captureOpen`  whether the capture is still open (loop condition),
      `ret`          whether a frame was read,
      `record`       the camera's RECORD flag,
      `now`          the clock, read when a file is opened,
      `writerOpens`  whether the new writer reports itself opened,
      `exit`         the camera's EXIT flag, read at the end of the iteration. */
  datatype FrameEvent = FrameEvent(captureOpen: bool, ret: bool, record: bool, now: Timestamp, writerOpens: bool, exit: bool)

  /** An output writer: file name, codec, frame rate and frame size. */
  datatype Writer = Writer(filename: string, fourcc: string, fps: int, width: int, height: int)

  /** The frame rate every writer declares, whatever rate the capture reports. */
  const WriterFps: int := 25

  /** What one iteration does with its frame. */
  datatype Action =
    | NoFrame                         // the read failed: nothing is shown or written
    | ShownOnly                       // shown, not recording: the next recorded frame starts a new file
    | Opened(w: Writer, ok: bool)     // shown; a writer was created for a new file, the frame is not written
    | Written(w: Writer)              // shown and appended to the current writer

  /** The loop's variables: `new_file` and the writer bound to `out`
      (unbound until the first open). */
  datatype LoopState = LoopState(newFile: bool, out: Option<Writer>)

  /** `out` is bound whenever `new_file` is false, so writing never meets an unbound name. */
  predicate Bound(s: LoopState) {
    !s.newFile ==> s.out.Some?
  }

  /** The state before the first iteration. */
  const Start: LoopState := LoopState(true, None)

  /** The writer the loop would create for a frame read at `now`, named as the
      program names it: the camera name is part of the `strftime` format. */
  function NewWriter(name: string, width: int, height: int, now: Timestamp): Writer {
    Writer(AsWrittenFileName(name, now), "MJPG", WriterFps, width, height)
  }

  /** One iteration of the loop body. */
  function Step(name: string, width: int, height: int, s: LoopState, e: FrameEvent): (r: (LoopState, Action))
    requires Bound(s)
    ensures Bound(r.0)
  {
    if !e.ret then (s, NoFrame)
    else if e.record then
      if s.newFile then
        var w := NewWriter(name, width, height, e.now);
        (LoopState(!e.writerOpens, Some(w)), Opened(w, e.writerOpens))
      else (s, Written(s.out.value))
    else (s.(newFile := true), ShownOnly)
  }

  /** The actions of the loop run from state `s` over `events`: it stops before
      an iteration that finds the capture closed, and after one that sees EXIT. */
  function Run(name: string, width: int, height: int, s: LoopState, events: seq<FrameEvent>): (trace: seq<Action>)
    requires Bound(s)
    ensures |trace| <= |events|
    decreases |events|
  {
    if events == [] || !events[0].captureOpen then []
    else
      var (s', a) := Step(name, width, height, s, events[0]);
      [a] + (if events[0].exit then [] else Run(name, width, height, s', events[1..]))
  }

  /** A run performs one action per iteration while the capture stays open and
      EXIT is not seen, and it ends only because the events ran out, the
      capture closed, or the last iteration saw EXIT. */
  lemma {:induction false} RunStops(name: string, width: int, height: int, s: LoopState, events: seq<FrameEvent>)
    requires Bound(s)
    ensures var trace := Run(name, width, height, s, events);
      (forall i :: 0 <= i < |trace| ==> events[i].captureOpen) &&
      (forall i :: 0 <= i < |trace| - 1 ==> !events[i].exit) &&
      (|trace| < |events| ==> !events[|trace|].captureOpen || (|trace| > 0 && events[|trace| - 1].exit))
    decreases |events|
  {
    if events != [] && events[0].captureOpen && !events[0].exit {
      var s' := Step(name, width, height, s, events[0]).0;
      RunStops(name, width, height, s', events[1..]);
      var rest := Run(name, width, height, s', events[1..]);
      assert forall i :: 1 <= i < |rest| + 1 ==> events[i] == events[1..][i - 1];
    }
  }

  /** The loop state after the first `i` events, had the loop not stopped. */
  function StateAt(name: string, width: int, height: int, s: LoopState, events: seq<FrameEvent>, i: nat): (r: LoopState)
    requires Bound(s) && i <= |events|
    ensures Bound(r)
    decreases i
  {
    if i == 0 then s else StateAt(name, width, height, Step(name, width, height, s, events[0]).0, events[1..], i - 1)
  }

  /** One more iteration of the loop keeps its invariant, or ends the run when
      it sees EXIT. */
  lemma RunAdvance(name: string, width: int, height: int, s: LoopState, events: seq<FrameEvent>, i: nat, trace: seq<Action>)
    requires Bound(s) && i < |events| && events[i].captureOpen
    requires trace + Run(name, width, height, s, events[i..]) == Run(name, width, height, Start, events)
    ensures var (s', a) := Step(name, width, height, s, events[i]);
      if events[i].exit then trace + [a] == Run(name, width, height, Start, events)
      else (trace + [a]) + Run(name, width, height, s', events[i + 1..]) == Run(name, width, height, Start, events)
  {
    assert events[i..][1..] == events[i + 1..];
  }

  /** The run is over once the events are used up or the capture is closed. */
  lemma RunEnds(name: string, width: int, height: int, s: LoopState, events: seq<FrameEvent>, i: nat)
    requires Bound(s) && i <= |events| && (i == |events| || !events[i].captureOpen)
    ensures Run(name, width, height, s, events[i..]) == []
  {
  }

  /** The body of one loop iteration: show the frame if one was read and,
      while RECORD is set, open a new writer at the start of a segment (the
      frame that opens it is not written) or append the frame to the open one. */
  method Iteration(name: string, width: int, height: int, newFile: bool, out: Option<Writer>, e: FrameEvent)
    returns (newFile': bool, out': Option<Writer>, action: Action)
    requires Bound(LoopState(newFile, out))
    ensures (LoopState(newFile', out'), action) == Step(name, width, height, LoopState(newFile, out), e)
  {
    newFile', out' := newFile, out;
    if e.ret {
      if e.record {
        if newFile {
          var filename := Strftime(name + " %Y-%m-%d %H-%M-%S", e.now) + ".avi";
          out' := Some(Writer(filename, "MJPG", WriterFps, width, height));
          if e.writerOpens {
            newFile' := false;
          }
          action := Opened(out'.value, e.writerOpens);
        } else {
          action := Written(out.value);
        }
      } else {
        newFile' := true;
        action := ShownOnly;
      }
    } else {
      action := NoFrame;
    }
  }

  /** The worker body after the capture was opened: `captureOpened` is the check
      made once before the loop; without it the worker only releases and returns. */
  method Play(name: string, captureOpened: bool, width: int, height: int, events: seq<FrameEvent>)
    returns (trace: seq<Action>)
    ensures trace == if captureOpened then Run(name, width, height, Start, events) else []
  {
    trace := [];
    if captureOpened {
      var newFile := true;
      var out: Option<Writer> := None;
      var i := 0;
      ghost var sawExit := false;
      while i < |events| && events[i].captureOpen
        invariant 0 <= i <= |events| && Bound(LoopState(newFile, out)) && !sawExit
        invariant trace + Run(name, width, height, LoopState(newFile, out), events[i..]) == Run(name, width, height, Start, events)
      {
        var e := events[i];
        RunAdvance(name, width, height, LoopState(newFile, out), events, i, trace);
        var action;
        newFile, out, action := Iteration(name, width, height, newFile, out, e);
        trace := trace + [action];
        i := i + 1;
        if e.exit {
          sawExit := true;
          break;
        }
      }
      if !sawExit {
        RunEnds(name, width, height, LoopState(newFile, out), events, i);
      }
    }
  }

  /** The action of the `i`-th iteration, had the loop not stopped. */
  function ActionAt(name: string, width: int, height: int, s: LoopState, events: seq<FrameEvent>, i: nat): Action
    requires Bound(s) && i < |events|
  {
    Step(name, width, height, StateAt(name, width, height, s, events, i), events[i]).1
  }

  /** `StateAt` advances by one `Step` per event. */
  lemma {:induction false} StateAtNext(name: string, width: int, height: int, s: LoopState, events: seq<FrameEvent>, i: nat)
    requires Bound(s) && i < |events|
    ensures StateAt(name, width, height, s, events, i + 1) ==
      Step(name, width, height, StateAt(name, width, height, s, events, i), events[i]).0
    decreases i
  {
    if i > 0 {
      var s' := Step(name, width, height, s, events[0]).0;
      StateAtNext(name, width, height, s', events[1..], i - 1);
    }
  }

  /** The `i`-th action of a run is the step taken from the state the first `i`
      events lead to. */
  lemma {:induction false} RunAt(name: string, width: int, height: int, s: LoopState, events: seq<FrameEvent>, i: nat)
    requires Bound(s) && i < |Run(name, width, height, s, events)|
    ensures Run(name, width, height, s, events)[i] == ActionAt(name, width, height, s, events, i)
    decreases i
  {
    if i > 0 {
      var s' := Step(name, width, height, s, events[0]).0;
      RunAt(name, width, height, s', events[1..], i - 1);
    }
  }

  /** A failed read shows nothing, writes nothing and leaves `new_file` and `out` as they were. */
  lemma ReadFailureKeepsState(name: string, width: int, height: int, s: LoopState, events: seq<FrameEvent>, i: nat)
    requires Bound(s) && i < |events| && !events[i].ret
    ensures ActionAt(name, width, height, s, events, i) == NoFrame
    ensures StateAt(name, width, height, s, events, i + 1) == StateAt(name, width, height, s, events, i)
  {
    StateAtNext(name, width, height, s, events, i);
  }

  /** A frame read while RECORD is set on which a new writer opens. */
  predicate Opens(e: FrameEvent) {
    e.ret && e.record && e.writerOpens
  }

  /** A frame read while RECORD is clear: the end of a recording segment. */
  predicate Off(e: FrameEvent) {
    e.ret && !e.record
  }

  /** Some earlier frame opened a writer and no frame read since had RECORD clear. */
  ghost predicate Armed(events: seq<FrameEvent>, i: nat)
    requires i <= |events|
  {
    exists j :: 0 <= j < i && Opens(events[j]) && forall k :: j < k < i ==> !Off(events[k])
  }

  /** `new_file` is false before frame `i` exactly when a writer opened on an
      earlier recorded frame and no frame read since had RECORD clear. */
  lemma {:induction false} NewFileUnlessArmed(name: string, width: int, height: int, events: seq<FrameEvent>, i: nat)
    requires i <= |events|
    ensures StateAt(name, width, height, Start, events, i).newFile == !Armed(events, i)
  {
    if i > 0 {
      NewFileUnlessArmed(name, width, height, events, i - 1);
      StateAtNext(name, width, height, Start, events, i - 1);
      var prev := StateAt(name, width, height, Start, events, i - 1);
      var e := events[i - 1];
      if Off(e) {
        forall j | 0 <= j < i && Opens(events[j])
          ensures exists k :: j < k < i && Off(events[k])
        {
          assert j < i - 1 && Off(events[i - 1]);
        }
      } else if Opens(e) {
        assert Opens(events[i - 1]);
      } else if Armed(events, i - 1) {
        var j :| 0 <= j < i - 1 && Opens(events[j]) && forall k :: j < k < i - 1 ==> !Off(events[k]);
        assert forall k :: j < k < i ==> !Off(events[k]);
      } else {
        forall j | 0 <= j < i && Opens(events[j])
          ensures exists k :: j < k < i && Off(events[k])
        {
          assert j < i - 1;
          var k :| j < k < i - 1 && Off(events[k]);
        }
      }
    }
  }

  /** What the loop does with the `i`-th frame of a run: nothing when the read
      failed; only shows it when RECORD is clear; opens a new writer, with the
      session's file name, codec, 25 frames per second and the capture's size,
      and does not write the frame, when RECORD is set and the segment has no
      open writer yet; and writes it when RECORD is set and an earlier frame of
      the segment opened a writer. */
  lemma Classify(name: string, width: int, height: int, events: seq<FrameEvent>, i: nat)
    requires i < |Run(name, width, height, Start, events)|
    ensures var a := Run(name, width, height, Start, events)[i];
      (a == NoFrame <==> !events[i].ret) &&
      (a == ShownOnly <==> Off(events[i])) &&
      (a.Opened? <==> events[i].ret && events[i].record && !Armed(events, i)) &&
      (a.Written? <==> events[i].ret && events[i].record && Armed(events, i)) &&
      (a.Opened? ==> a.w == Writer(AsWrittenFileName(name, events[i].now), "MJPG", 25, width, height) &&
                     a.ok == events[i].writerOpens)
  {
    RunAt(name, width, height, Start, events, i);
    NewFileUnlessArmed(name, width, height, events, i);
  }

  /** After a frame read with RECORD clear, the next frame read with RECORD set
      opens a new file: stopping and restarting recording never appends to the
      previous file. */
  lemma NewFileAfterRestart(name: string, width: int, height: int, events: seq<FrameEvent>, j: nat, k: nat)
    requires j < k < |Run(name, width, height, Start, events)|
    requires Off(events[j]) && events[k].ret && events[k].record
    requires forall m :: j < m < k ==> !(events[m].ret && events[m].record)
    ensures Run(name, width, height, Start, events)[k].Opened?
  {
    Classify(name, width, height, events, k);
    forall j' | 0 <= j' < k && Opens(events[j'])
      ensures exists m :: j' < m < k && Off(events[m])
    {
      assert j' < j;
    }
  }

  /** When opening a writer fails, the frame is dropped and the next frame read
      with RECORD set tries to open a writer again. */
  lemma FailedOpenRetried(name: string, width: int, height: int, events: seq<FrameEvent>, j: nat, k: nat)
    requires j < k < |Run(name, width, height, Start, events)|
    requires Run(name, width, height, Start, events)[j].Opened? && !Run(name, width, height, Start, events)[j].ok
    requires events[k].ret && events[k].record
    requires forall m :: j < m < k ==> !(events[m].ret && events[m].record)
    ensures Run(name, width, height, Start, events)[k].Opened?
  {
    Classify(name, width, height, events, j);
    Classify(name, width, height, events, k);
    forall j' | 0 <= j' < k && Opens(events[j'])
      ensures exists m :: j' < m < k && Off(events[m])
    {
      assert j' < j;
      var m :| j' < m < j && Off(events[m]);
    }
  }

  /** Before frame `i`, a cleared `new_file` means the writer in `out` was opened
      successfully by some earlier frame, and every frame since was written to
      it or failed to read. */
  lemma {:induction false} SegmentOrigin(name: string, width: int, height: int, events: seq<FrameEvent>, i: nat)
    requires i <= |events| && !StateAt(name, width, height, Start, events, i).newFile
    ensures var out := StateAt(name, width, height, Start, events, i).out.value;
      exists j :: 0 <= j < i && ActionAt(name, width, height, Start, events, j) == Opened(out, true) &&
        forall k :: j < k < i ==> ActionAt(name, width, height, Start, events, k) in {NoFrame, Written(out)}
  {
    if i > 0 {
      StateAtNext(name, width, height, Start, events, i - 1);
      var prev := StateAt(name, width, height, Start, events, i - 1);
      var out := StateAt(name, width, height, Start, events, i).out.value;
      var e := events[i - 1];
      if e.ret && e.record && prev.newFile {
        assert ActionAt(name, width, height, Start, events, i - 1) == Opened(out, true);
      } else {
        SegmentOrigin(name, width, height, events, i - 1);
        var j :| 0 <= j < i - 1 && ActionAt(name, width, height, Start, events, j) == Opened(out, true) &&
          forall k :: j < k < i - 1 ==> ActionAt(name, width, height, Start, events, k) in {NoFrame, Written(out)};
        assert ActionAt(name, width, height, Start, events, i - 1) in {NoFrame, Written(out)};
      }
    }
  }

  /** Every written frame goes to the writer the current segment opened
      successfully, and between that open and the frame there was no other open
      and no frame read with RECORD clear. */
  lemma WrittenToSegmentWriter(name: string, width: int, height: int, events: seq<FrameEvent>, i: nat)
    requires i < |Run(name, width, height, Start, events)|
    requires Run(name, width, height, Start, events)[i].Written?
    ensures var trace, w := Run(name, width, height, Start, events), Run(name, width, height, Start, events)[i].w;
      exists j :: 0 <= j < i && trace[j] == Opened(w, true) &&
        forall k :: j < k < i ==> trace[k] in {NoFrame, Written(w)}
  {
    var trace := Run(name, width, height, Start, events);
    RunAt(name, width, height, Start, events, i);
    SegmentOrigin(name, width, height, events, i);
    var w := trace[i].w;
    var j :| 0 <= j < i && ActionAt(name, width, height, Start, events, j) == Opened(w, true) &&
      forall k :: j < k < i ==> ActionAt(name, width, height, Start, events, k) in {NoFrame, Written(w)};
    RunAt(name, width, height, Start, events, j);
    forall k | j < k < i
      ensures trace[k] in {NoFrame, Written(w)}
    {
      RunAt(name, width, height, Start, events, k);
    }
  }

  /** For a camera name without `%`, each opened file is named
      `<name> <YYYY-MM-DD HH-MM-SS>.avi` after the moment it was opened. */
  lemma OpenedFileName(name: string, width: int, height: int, events: seq<FrameEvent>, i: nat)
    requires '%' !in name
    requires i < |Run(name, width, height, Start, events)| && Run(name, width, height, Start, events)[i].Opened?
    ensures Run(name, width, height, Start, events)[i].w.filename == FileName(name, events[i].now)
  {
    Classify(name, width, height, events, i);
    AsWrittenAgrees(name, events[i].now);
  }

  /** For a camera name without `%`, two opens at different seconds open
      different files, and two opens in the same second open the same file. */
  lemma OpensShareFileIffSameSecond(name: string, width: int, height: int, events: seq<FrameEvent>, i: nat, j: nat)
    requires '%' !in name
    requires i < |Run(name, width, height, Start, events)| && Run(name, width, height, Start, events)[i].Opened?
    requires j < |Run(name, width, height, Start, events)| && Run(name, width, height, Start, events)[j].Opened?
    requires ValidTimestamp(events[i].now) && ValidTimestamp(events[j].now)
    ensures Run(name, width, height, Start, events)[i].w.filename == Run(name, width, height, Start, events)[j].w.filename
      <==> events[i].now == events[j].now
  {
    OpenedFileName(name, width, height, events, i);
    OpenedFileName(name, width, height, events, j);
    FileNameInjective(name, events[i].now, name, events[j].now);
  }

  /** RECORD is read only on frames that were read successfully, so turning
      recording off and on again while reads fail (or between two reads) goes
      unnoticed: the next recorded frame is appended to the file already open. */
  lemma UnobservedRestartAppends(name: string, width: int, height: int, t0: Timestamp, t1: Timestamp, t2: Timestamp)
    ensures var onFrame := FrameEvent(true, true, true, t0, true, false);
      var offRead := FrameEvent(true, false, false, t1, true, false);
      var onAgain := FrameEvent(true, true, true, t2, true, false);
      var trace := Run(name, width, height, Start, [onFrame, offRead, onAgain]);
      var w := NewWriter(name, width, height, t0);
      |trace| == 3 && trace[0] == Opened(w, true) && trace[1] == NoFrame && trace[2] == Written(w)
  {
    var onFrame := FrameEvent(true, true, true, t0, true, false);
    var offRead := FrameEvent(true, false, false, t1, true, false);
    var onAgain := FrameEvent(true, true, true, t2, true, false);
    var events := [onFrame, offRead, onAgain];
    var w := NewWriter(name, width, height, t0);
    var s1 := LoopState(false, Some(w));
    assert Step(name, width, height, Start, onFrame) == (s1, Opened(w, true));
    assert Step(name, width, height, s1, offRead) == (s1, NoFrame);
    assert Step(name, width, height, s1, onAgain) == (s1, Written(w));
    assert Run(name, width, height, s1, []) == [];
    assert [onAgain][1..] == [];
    assert Run(name, width, height, s1, [onAgain]) == [Written(w)];
    assert [offRead, onAgain][1..] == [onAgain];
    assert Run(name, width, height, s1, [offRead, onAgain]) == [NoFrame, Written(w)];
    assert events[1..] == [offRead, onAgain];
  }
}
