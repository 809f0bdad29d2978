/** The per-camera bookkeeping behind the "Show Video" and "Start Record"
    buttons.  Every camera has two entries in the recorder's dictionary, one
    keyed by each of its buttons; each entry names the other button in its
    `depend` field.  A button's widget state is reduced to whether it is enabled.
    This module states the handlers as functions on the bookkeeping value; the
    class in module Recorder performs them in place. */
module Control {

  /** The widgets that key the dictionary: the two buttons of camera `cam`
      (cameras are numbered in configuration order). */
  datatype Button = ShowButton(cam: nat) | RecordButton(cam: nat)

  /** The other button of the same camera. */
  function Other(b: Button): (o: Button)
    ensures o.cam == b.cam && o.ShowButton? == b.RecordButton?
  {
    match b
    case ShowButton(c) => RecordButton(c)
    case RecordButton(c) => ShowButton(c)
  }

  /** One dictionary entry.  `pid` says whether a worker thread object is held
      (the source's `PID` is a thread or `None`). */
  datatype Entry = Entry(name: string, exit: bool, pid: bool, record: bool, toggle: bool, url: string, depend: Button)

  /** One camera of the configuration. */
  datatype Param = Param(name: string, url: string)

  /** The dictionary and the enabled state of every button. */
  datatype Gui = Gui(entries: map<Button, Entry>, enabled: map<Button, bool>)

  /** A fresh entry: all flags false, no worker. */
  function NewEntry(p: Param, depend: Button): Entry {
    Entry(p.name, false, false, false, false, p.url, depend)
  }

  /** Adds camera `c`: its Show button starts enabled, its Record button disabled. */
  function AddCamera(g: Gui, c: nat, p: Param): (r: Gui)
    ensures forall k :: k in g.entries && k.cam != c ==> k in r.entries && r.entries[k] == g.entries[k]
    ensures forall k :: k in g.enabled && k.cam != c ==> k in r.enabled && r.enabled[k] == g.enabled[k]
  {
    Gui(g.entries[ShowButton(c) := NewEntry(p, RecordButton(c))][RecordButton(c) := NewEntry(p, ShowButton(c))],
        g.enabled[ShowButton(c) := true][RecordButton(c) := false])
  }

  /** The state the constructor builds from the configuration: both buttons of
      every configured camera are keys; both entries carry the camera's name
      and URL, every flag false and no worker; Show is enabled, Record disabled. */
  function Init(params: seq<Param>): (g: Gui)
    ensures forall b :: b in g.entries <==> b.cam < |params|
    ensures g.entries.Keys == g.enabled.Keys
    ensures forall c :: 0 <= c < |params| ==>
      g.entries[ShowButton(c)] == NewEntry(params[c], RecordButton(c)) &&
      g.entries[RecordButton(c)] == NewEntry(params[c], ShowButton(c)) &&
      g.enabled[ShowButton(c)] && !g.enabled[RecordButton(c)]
  {
    if params == [] then Gui(map[], map[])
    else AddCamera(Init(params[..|params| - 1]), |params| - 1, params[|params| - 1])
  }

  /** Adding a camera that is not yet a key keeps the invariants. */
  lemma AddCameraKeepsInv(g: Gui, c: nat, p: Param)
    requires Inv(g) && forall b :: b in g.entries ==> b.cam < c
    ensures Inv(AddCamera(g, c, p))
  {
    var r := AddCamera(g, c, p);
    forall c' | ShowButton(c') in r.entries
      ensures Paired(r.entries[ShowButton(c')], r.entries[RecordButton(c')], c')
    {
      if c' != c {
        assert Paired(g.entries[ShowButton(c')], g.entries[RecordButton(c')], c');
      }
    }
    assert WellFormed(r);
    forall c' | ShowButton(c') in r.entries
      ensures CameraInv(r, c')
    {
      if c' != c {
        assert CameraInv(g, c');
      }
    }
  }

  /** The constructed state satisfies the invariants. */
  lemma {:induction false} InitInv(params: seq<Param>)
    ensures Inv(Init(params))
  {
    if params != [] {
      var n := |params| - 1;
      InitInv(params[..n]);
      AddCameraKeepsInv(Init(params[..n]), n, params[n]);
    }
  }

  /** The order in which the constructor inserts the keys. */
  function KeyOrder(n: nat): seq<Button> {
    if n == 0 then [] else KeyOrder(n - 1) + [ShowButton(n - 1), RecordButton(n - 1)]
  }

  /** The insertion order lists each camera's Show button and then its Record
      button, camera by camera, and nothing else. */
  lemma {:induction false} KeyOrderLists(n: nat)
    ensures |KeyOrder(n)| == 2 * n
    ensures forall i :: 0 <= i < n ==> KeyOrder(n)[2 * i] == ShowButton(i) && KeyOrder(n)[2 * i + 1] == RecordButton(i)
    ensures forall b :: b in KeyOrder(n) <==> b.cam < n
  {
    if n > 0 {
      KeyOrderLists(n - 1);
    }
  }

  /** The constructor's loop adds the cameras one at a time. */
  lemma InitStep(params: seq<Param>, i: nat)
    requires i < |params|
    ensures Init(params[..i + 1]) == AddCamera(Init(params[..i]), i, params[i])
  {
    assert params[..i + 1][..i] == params[..i];
  }

  /** The constructor inserts exactly the keys of the state it builds. */
  lemma InitKeys(params: seq<Param>)
    ensures forall b :: b in Init(params).entries <==> b in KeyOrder(|params|)
  {
    KeyOrderLists(|params|);
  }

  /** The shape the constructor gives the dictionary: the two buttons of a
      camera are keys together, each entry's `depend` is the other button, the
      two entries share name and URL, and an entry that is showing holds a worker. */
  ghost predicate WellFormed(g: Gui) {
    g.entries.Keys == g.enabled.Keys &&
    (forall c :: ShowButton(c) in g.entries <==> RecordButton(c) in g.entries) &&
    (forall c :: ShowButton(c) in g.entries ==> Paired(g.entries[ShowButton(c)], g.entries[RecordButton(c)], c)) &&
    (forall b :: b in g.entries && g.entries[b].toggle ==> g.entries[b].pid)
  }

  ghost predicate Paired(show: Entry, rec: Entry, c: nat) {
    show.depend == RecordButton(c) && rec.depend == ShowButton(c) &&
    show.name == rec.name && show.url == rec.url
  }

  /** The invariants the buttons' enabled states maintain. */
  ghost predicate Inv(g: Gui) {
    WellFormed(g) &&
    forall c :: ShowButton(c) in g.entries ==> CameraInv(g, c)
  }

  ghost predicate CameraInv(g: Gui, c: nat)
    requires WellFormed(g) && ShowButton(c) in g.entries
  {
    var show, rec := g.entries[ShowButton(c)], g.entries[RecordButton(c)];
    // both entries agree on RECORD
    show.record == rec.record &&
    // the Record entry is never toggled, never holds a worker, never told to exit
    !rec.toggle && !rec.pid && !rec.exit &&
    // a worker exists exactly while showing, and is not told to exit
    show.pid == show.toggle && (show.toggle ==> !show.exit) &&
    // Record is enabled exactly while showing
    g.enabled[RecordButton(c)] == show.toggle &&
    // Show is disabled exactly while recording
    g.enabled[ShowButton(c)] == !show.record &&
    // recording implies showing
    (show.record ==> show.toggle)
  }

  /** The Show-button handler.  Hiding disables Record, clears TOGGLE, sets
      EXIT, joins the worker and drops it; showing enables Record, sets TOGGLE,
      clears EXIT and starts a worker.  (Joining a missing worker would raise,
      hence the last requirement.) */
  function ShowOp(g: Gui, b: Button): (r: Gui)
    requires b in g.entries && g.entries[b].depend in g.enabled
    requires g.entries[b].toggle ==> g.entries[b].pid
    ensures r.entries.Keys == g.entries.Keys && r.enabled.Keys == g.enabled.Keys
    ensures forall k :: k in g.entries && k != b ==> r.entries[k] == g.entries[k]
    ensures forall k :: k in g.enabled && k != g.entries[b].depend ==> r.enabled[k] == g.enabled[k]
    ensures r.entries[b].toggle == !g.entries[b].toggle
    ensures r.entries[b] == g.entries[b].(toggle := r.entries[b].toggle, pid := r.entries[b].toggle, exit := !r.entries[b].toggle)
    ensures r.enabled[g.entries[b].depend] == r.entries[b].toggle
  {
    var e := g.entries[b];
    if e.toggle then
      Gui(g.entries[b := e.(toggle := false, exit := true, pid := false)], g.enabled[e.depend := false])
    else
      Gui(g.entries[b := e.(toggle := true, exit := false, pid := true)], g.enabled[e.depend := true])
  }

  /** The Record-button handler: flips RECORD on the pressed entry and then on
      its `depend` entry, disabling the other button when recording starts and
      enabling it when recording stops.  There is no check that the camera is
      being shown. */
  function RecordOp(g: Gui, b: Button): (r: Gui)
    requires b in g.entries && g.entries[b].depend in g.entries && g.entries[b].depend in g.enabled
    ensures r.entries.Keys == g.entries.Keys && r.enabled.Keys == g.enabled.Keys
    ensures forall k :: k in g.entries && k != b && k != g.entries[b].depend ==> r.entries[k] == g.entries[k]
    ensures forall k :: k in g.enabled && k != g.entries[b].depend ==> r.enabled[k] == g.enabled[k]
    ensures forall k :: k in g.entries ==> r.entries[k] == g.entries[k].(record := r.entries[k].record)
    ensures r.entries[b].record == !g.entries[b].record && r.entries[g.entries[b].depend].record == r.entries[b].record
    ensures r.enabled[g.entries[b].depend] == !r.entries[b].record
  {
    var e := g.entries[b];
    var d := e.depend;
    if e.record then
      var a := g.entries[b := e.(record := false)];
      Gui(a[d := a[d].(record := false)], g.enabled[d := true])
    else
      var a := g.entries[b := e.(record := true)];
      Gui(a[d := a[d].(record := true)], g.enabled[d := false])
  }

  /** A click: a disabled button, or a widget that is not a key, does nothing. */
  function Press(g: Gui, b: Button): Gui
    requires WellFormed(g)
  {
    if b in g.enabled && g.enabled[b] then
      match b
      case ShowButton(_) => ShowOp(g, b)
      case RecordButton(_) => RecordOp(g, b)
    else g
  }

  /** In a well-formed dictionary every entry depends on the other button of its camera. */
  lemma DependIsOther(g: Gui, b: Button)
    requires WellFormed(g) && b in g.entries
    ensures Other(b) in g.entries && Other(b) in g.enabled && g.entries[b].depend == Other(b)
  {
    assert ShowButton(b.cam) in g.entries;
    assert Paired(g.entries[ShowButton(b.cam)], g.entries[RecordButton(b.cam)], b.cam);
  }

  /** A click keeps the dictionary's shape. */
  lemma PressKeepsShape(g: Gui, b: Button)
    requires WellFormed(g)
    ensures WellFormed(Press(g, b)) && Press(g, b).entries.Keys == g.entries.Keys
  {
    var r := Press(g, b);
    forall c | ShowButton(c) in r.entries
      ensures Paired(r.entries[ShowButton(c)], r.entries[RecordButton(c)], c)
    {
      assert Paired(g.entries[ShowButton(c)], g.entries[RecordButton(c)], c);
    }
  }

  function Presses(g: Gui, bs: seq<Button>): (r: Gui)
    requires WellFormed(g)
    ensures WellFormed(r) && r.entries.Keys == g.entries.Keys
    decreases |bs|
  {
    if bs == [] then g
    else
      PressKeepsShape(g, bs[0]);
      Presses(Press(g, bs[0]), bs[1..])
  }

  /** A click on an enabled button keeps the invariants. */
  lemma PressKeepsInv(g: Gui, b: Button)
    requires Inv(g)
    ensures Inv(Press(g, b))
  {
    PressKeepsShape(g, b);
    var r := Press(g, b);
    if b in g.enabled && g.enabled[b] {
      assert CameraInv(g, b.cam);
      forall c | ShowButton(c) in r.entries
        ensures CameraInv(r, c)
      {
        assert CameraInv(g, c);
        if c != b.cam {
          assert r.entries[ShowButton(c)] == g.entries[ShowButton(c)];
          assert r.entries[RecordButton(c)] == g.entries[RecordButton(c)];
        }
      }
    }
  }

  /** Starting from the constructed state, any sequence of clicks keeps the
      invariants: both entries agree on RECORD, Record is enabled only while
      showing, Show is disabled while recording, recording implies showing, and
      only Show entries are ever toggled. */
  lemma {:induction false} ClicksKeepInv(params: seq<Param>, bs: seq<Button>)
    ensures WellFormed(Init(params)) && Inv(Presses(Init(params), bs))
  {
    InitInv(params);
    PressesKeepInv(Init(params), bs);
  }

  lemma {:induction false} PressesKeepInv(g: Gui, bs: seq<Button>)
    requires Inv(g)
    ensures Inv(Presses(g, bs))
    decreases |bs|
  {
    if bs != [] {
      PressKeepsInv(g, bs[0]);
      PressesKeepInv(Press(g, bs[0]), bs[1..]);
    }
  }

  /** In a reachable state a recording camera is being shown, on both entries. */
  lemma RecordingImpliesShowing(g: Gui, b: Button)
    requires Inv(g) && b in g.entries && g.entries[b].record
    ensures g.entries[ShowButton(b.cam)].toggle && g.entries[ShowButton(b.cam)].pid
  {
    assert ShowButton(b.cam) in g.entries;
    assert CameraInv(g, b.cam);
  }

  /** One step of the exit handler: hide the key if it is showing. */
  function Visit(g: Gui, k: Button): (r: Gui)
    requires WellFormed(g) && k in g.entries
    ensures WellFormed(r) && r.entries.Keys == g.entries.Keys
  {
    DependIsOther(g, k);
    if g.entries[k].toggle then ShowOp(g, k) else g
  }

  /** The exit handler visits one more key. */
  lemma ExitOpStep(g: Gui, ks: seq<Button>, i: nat)
    requires WellFormed(g) && i < |ks| && forall k :: k in ks ==> k in g.entries
    ensures ExitOp(g, ks[..i + 1]) == Visit(ExitOp(g, ks[..i]), ks[i])
  {
    assert ks[..i + 1][..i] == ks[..i];
  }

  /** The exit handler: the Show handler for each key, in order, whose entry is
      toggled when its turn comes. */
  function ExitOp(g: Gui, ks: seq<Button>): (r: Gui)
    requires WellFormed(g) && forall k :: k in ks ==> k in g.entries
    ensures WellFormed(r) && r.entries.Keys == g.entries.Keys
    decreases |ks|
  {
    if ks == [] then g
    else Visit(ExitOp(g, ks[..|ks| - 1]), ks[|ks| - 1])
  }

  /** The entry of a showing camera after the hide path. */
  function Hidden(e: Entry): Entry {
    e.(toggle := false, exit := true, pid := false)
  }

  /** After visiting `ks`, exactly the toggled entries among them have gone
      through the hide path, and every other entry is as it was. */
  lemma {:induction false} ExitVisits(g: Gui, ks: seq<Button>)
    requires WellFormed(g) && forall k :: k in ks ==> k in g.entries
    ensures forall b :: b in g.entries ==>
      ExitOp(g, ks).entries[b] == (if b in ks && g.entries[b].toggle then Hidden(g.entries[b]) else g.entries[b])
    decreases |ks|
  {
    if ks != [] {
      var ks' := ks[..|ks| - 1];
      var last := ks[|ks| - 1];
      assert forall k :: k in ks' ==> k in ks;
      assert forall k :: k in ks <==> k in ks' || k == last;
      ExitVisits(g, ks');
      var before := ExitOp(g, ks');
      assert ExitOp(g, ks) == Visit(before, last);
      DependIsOther(before, last);
      forall b | b in g.entries
        ensures ExitOp(g, ks).entries[b] == (if b in ks && g.entries[b].toggle then Hidden(g.entries[b]) else g.entries[b])
      {
        if b != last {
          assert Visit(before, last).entries[b] == before.entries[b];
        }
      }
    }
  }

  /** When the exit handler visits every key, no entry is left toggled, every
      joined entry has dropped its worker, and in a reachable state no worker is
      left at all.  RECORD is not touched. */
  lemma ExitStopsAll(g: Gui, ks: seq<Button>)
    requires WellFormed(g) && forall k :: k in g.entries <==> k in ks
    ensures forall b :: b in g.entries ==> !ExitOp(g, ks).entries[b].toggle
    ensures forall b :: b in g.entries && g.entries[b].toggle ==> !ExitOp(g, ks).entries[b].pid
    ensures forall b :: b in g.entries ==> ExitOp(g, ks).entries[b].record == g.entries[b].record
    ensures Inv(g) ==> forall b :: b in g.entries ==> !ExitOp(g, ks).entries[b].pid
  {
    ExitVisits(g, ks);
    var r := ExitOp(g, ks);
    if Inv(g) {
      forall b | b in g.entries
        ensures !r.entries[b].pid
      {
        assert ShowButton(b.cam) in g.entries;
        assert CameraInv(g, b.cam);
      }
    }
  }
}
