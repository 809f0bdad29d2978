/** The recorder object: the dictionary of entries keyed by button and the
    enabled state of each button, updated in place by the button handlers. */
module Recorder {
  import opened Control

  class Recorder {
    /** The dictionary of entries, keyed by button (the source's `array`). */
    var entries: map<Button, Entry>
    /** Whether each button is enabled (`state="normal"`) or disabled. */
    var enabled: map<Button, bool>
    /** The keys of `entries` in insertion order, the order the dictionary iterates in. */
    var order: seq<Button>

    function Model(): Gui
      reads this
    {
      Gui(entries, enabled)
    }

    ghost predicate Valid()
      reads this
    {
      WellFormed(Model()) && forall k :: k in entries <==> k in order
    }

    /** Creates the two buttons of every configured camera with their entries:
        Show enabled, Record disabled, every flag false and no worker. */
    constructor (params: seq<Param>)
      ensures Valid() && Inv(Model())
      ensures Model() == Init(params) && order == KeyOrder(|params|)
    {
      var es: map<Button, Entry> := map[];
      var en: map<Button, bool> := map[];
      var ks: seq<Button> := [];
      for i := 0 to |params|
        invariant Gui(es, en) == Init(params[..i]) && ks == KeyOrder(i)
      {
        InitStep(params, i);
        ghost var before := Gui(es, en);
        var name, url := params[i].name, params[i].url;
        var buttonShow, buttonRec := ShowButton(i), RecordButton(i);
        en := en[buttonShow := true][buttonRec := false];
        es := es[buttonShow := Entry(name, false, false, false, false, url, buttonRec)];
        es := es[buttonRec := Entry(name, false, false, false, false, url, buttonShow)];
        ks := ks + [buttonShow, buttonRec];
        assert Gui(es, en) == AddCamera(before, i, params[i]);
      }
      assert params[..|params|] == params;
      InitKeys(params);
      InitInv(params);
      entries, enabled, order := es, en, ks;
    }

    /** The Show-button handler, flag by flag in the order the handler sets them. */
    method Show(b: Button)
      requires b in entries && entries[b].depend in enabled
      requires entries[b].toggle ==> entries[b].pid
      modifies this
      ensures Model() == ShowOp(old(Model()), b) && order == old(order)
    {
      ghost var g := Model();
      var e := entries[b];
      if e.toggle {
        enabled := enabled[e.depend := false];
        entries := entries[b := entries[b].(toggle := false)];
        entries := entries[b := entries[b].(exit := true)];
        // join: the worker has seen EXIT and left its loop; the thread is dropped
        entries := entries[b := entries[b].(pid := false)];
        assert entries == g.entries[b := e.(toggle := false, exit := true, pid := false)];
      } else {
        enabled := enabled[e.depend := true];
        entries := entries[b := entries[b].(toggle := true)];
        entries := entries[b := entries[b].(exit := false)];
        // a new worker thread is created and started
        entries := entries[b := entries[b].(pid := true)];
        assert entries == g.entries[b := e.(toggle := true, exit := false, pid := true)];
      }
    }

    /** The Record-button handler: RECORD is flipped on the pressed entry, then on
        the entry of the button it depends on. */
    method Record(b: Button)
      requires b in entries && entries[b].depend in entries && entries[b].depend in enabled
      modifies this
      ensures Model() == RecordOp(old(Model()), b) && order == old(order)
    {
      if entries[b].record {
        enabled := enabled[entries[b].depend := true];
        entries := entries[b := entries[b].(record := false)];
        var tmp := entries[b].depend;
        entries := entries[tmp := entries[tmp].(record := false)];
      } else {
        enabled := enabled[entries[b].depend := false];
        entries := entries[b := entries[b].(record := true)];
        var tmp := entries[b].depend;
        entries := entries[tmp := entries[tmp].(record := true)];
      }
    }

    /** What a click does: the toolkit runs a button's command only while the
        button is enabled; the Show button runs `Show`, the Record button `Record`. */
    method Click(b: Button)
      requires Valid()
      modifies this
      ensures Valid() && Model() == Press(old(Model()), b) && order == old(order)
    {
      PressKeepsShape(Model(), b);
      if b in enabled && enabled[b] {
        DependIsOther(Model(), b);
        match b
        case ShowButton(_) => Show(b);
        case RecordButton(_) => Record(b);
      }
    }

    /** The window-close handler: runs the Show handler for every key, in the
        dictionary's order, whose entry is toggled when the key is reached. */
    method Exit()
      requires Valid()
      modifies this
      ensures order == old(order) && Valid() && Model() == ExitOp(old(Model()), order)
    {
      var i := 0;
      while i < |order|
        invariant 0 <= i <= |order| && order == old(order)
        invariant entries.Keys == old(entries.Keys)
        invariant Model() == ExitOp(old(Model()), order[..i])
      {
        ExitOpStep(old(Model()), order, i);
        var key := order[i];
        if entries[key].toggle {
          DependIsOther(Model(), key);
          Show(key);
        }
        i := i + 1;
      }
      assert order[..|order|] == order;
    }
  }
}
