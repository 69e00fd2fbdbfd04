/** Where the lists of the pose debugger and their entries come from, in every run. */
module PoseOrigins {
  import opened Collections
  import opened InfoTexts
  import opened PoseTracker

  // ----- lists -----

  ghost predicate HasList(s: Tracker, h: Header, ent: int) {
    || (h in s.current && s.current[h].entNum == ent)
    || (h in s.previous && s.previous[h].entNum == ent)
  }

  /** Operation i of the run starts model h, which has include models, for an entity that is shown then. */
  ghost predicate StartedShown(ops: seq<Op>, i: nat, h: Header, ent: int) {
    && i < |ops| && ops[i].Start? && ops[i].header == h && ops[i].includes && ops[i].ent == ent
    && IsShown(Run(ops, i), ent)
  }

  lemma ListFrom(s: Tracker, op: Op, h: Header, ent: int)
    requires Ready(s) && HasList(Apply(s, op), h, ent)
    ensures HasList(s, h, ent)
            || (op.Start? && op.header == h && op.includes && op.ent == ent && IsShown(s, ent))
  {
  }

  /** Every list there is was begun by a start of its model for an entity shown at the time: what is hidden never gets
      one. */
  lemma {:induction false} EveryListWasStarted(ops: seq<Op>, n: nat, h: Header, ent: int)
    requires n <= |ops| && HasList(Run(ops, n), h, ent)
    ensures exists i :: 0 <= i < n && StartedShown(ops, i, h, ent)
  {
    if n == 0 {
      assert false;
    } else {
      var j := n - 1;
      ListFrom(Run(ops, j), ops[j], h, ent);
      if HasList(Run(ops, j), h, ent) {
        EveryListWasStarted(ops, j, h, ent);
      } else {
        assert StartedShown(ops, j, h, ent);
      }
    }
  }

  // ----- entries -----

  ghost predicate HasEntry(s: Tracker, h: Header, t: InfoText) {
    (h in s.current && t in s.current[h].info.texts) || (h in s.previous && t in s.previous[h].info.texts)
  }

  /** op notes a layer of model h that an entry t shows. */
  ghost predicate Notes(s: Tracker, op: Op, h: Header, t: InfoText) {
    && op.Accumulate? && op.header == h && op.includes && h in s.current && IsShown(s, s.current[h].entNum)
    && Says(t, op.layer)
  }

  ghost predicate HasLayer(s: Tracker, h: Header, t: InfoText) {
    exists u :: HasEntry(s, h, u) && SameLayer(t, u)
  }

  lemma {:induction false} SurvivorFrom(ts: seq<InfoText>, frameTime: real, n: nat, t: InfoText)
    requires n <= |ts| && t in CollectFirst(ts, Surviving(frameTime), n)
    ensures exists u :: u in ts && SameLayer(t, u)
  {
    if t in Survivor(ts[n - 1], frameTime) {
      assert ts[n - 1] in ts && SameLayer(t, ts[n - 1]);
    } else {
      SurvivorFrom(ts, frameTime, n - 1, t);
    }
  }

  lemma AddedFrom(x: Option<InfoText>, prev: Option<Info>, frameTime: real, fadeOut: real, t: InfoText)
    requires (prev.Some? ==> prev.value.Valid()) && t in Added(x, prev, frameTime, fadeOut)
    ensures (x.Some? && SameLayer(t, x.value)) || (prev.Some? && exists u :: u in prev.value.texts && SameLayer(t, u))
  {
    if !(x.Some? && SameLayer(t, x.value)) {
      var o, k := prev.value, Target(x, prev.value);
      var passed := o.texts[o.cursor..k];
      SurvivorFrom(passed, frameTime, |passed|, t);
      var u :| u in passed && SameLayer(t, u);
      assert u in o.texts;
    }
  }

  lemma AdvancedFrom(x: Option<InfoText>, prev: Info, frameTime: real, t: InfoText)
    requires prev.Valid() && t in Advanced(x, prev, frameTime).texts
    ensures exists u :: u in prev.texts && SameLayer(t, u)
  {
    var p :| 0 <= p < |prev.texts| && Advanced(x, prev, frameTime).texts[p] == t;
    assert prev.texts[p] in prev.texts && SameLayer(t, prev.texts[p]);
  }

  lemma AddTextFrom(s: Tracker, g: Header, x: Option<InfoText>, frameTime: real, fadeOut: real, h: Header, t: InfoText)
    requires Ready(s) && g in s.current && HasEntry(AddText(s, g, x, frameTime, fadeOut), h, t)
    ensures HasLayer(s, h, t) || (h == g && x.Some? && SameLayer(t, x.value))
  {
    if HasEntry(s, h, t) {
      assert SameLayer(t, t);
    } else {
      assert h == g;
      var u := AddTextStep(s, g, x, frameTime, fadeOut, t);
      assert u.Some? ==> HasEntry(s, g, u.value) && SameLayer(t, u.value);
    }
  }

  lemma AddTextStep(s: Tracker, h: Header, x: Option<InfoText>, frameTime: real, fadeOut: real, t: InfoText)
    returns (u: Option<InfoText>)
    requires Ready(s) && h in s.current && HasEntry(AddText(s, h, x, frameTime, fadeOut), h, t) && !HasEntry(s, h, t)
    ensures u.Some? ==> HasEntry(s, h, u.value) && SameLayer(t, u.value)
    ensures u.None? ==> x.Some? && SameLayer(t, x.value)
  {
    if t in Added(x, PreviousInfo(s, h), frameTime, fadeOut) {
      AddedFrom(x, PreviousInfo(s, h), frameTime, fadeOut, t);
      if x.Some? && SameLayer(t, x.value) {
        u := None;
      } else {
        var v :| v in s.previous[h].info.texts && SameLayer(t, v);
        u := Some(v);
      }
    } else {
      AdvancedFrom(x, s.previous[h].info, frameTime, t);
      var v :| v in s.previous[h].info.texts && SameLayer(t, v);
      u := Some(v);
    }
  }

  lemma EntryFrom(s: Tracker, op: Op, h: Header, t: InfoText)
    requires Ready(s) && HasEntry(Apply(s, op), h, t)
    ensures HasLayer(s, h, t) || Notes(s, op, h, t)
  {
    if HasEntry(s, h, t) {
      assert SameLayer(t, t);
    } else {
      match op
      case Start(g, includes, ent, frameTime) =>
        assert HasEntry(Switch(s, g, frameTime), h, t);
        if s.lastModel.Some? && s.lastModel.value in s.current {
          AddTextFrom(s, s.lastModel.value, None, frameTime, 0.0, h, t);
        }
      case Accumulate(g, includes, layer, frameTime, fadeOut) =>
        AddTextFrom(s, g, Some(WithActivity(layer, s.current[g].info.texts)), frameTime, fadeOut, h, t);
      case ShowAllModels(_) =>
      case ShowModel(_, _) =>
    }
  }

  /** Every entry there is, live or fading, shows a layer that was noted for its model while the model's entity was
      shown. */
  lemma {:induction false} EveryEntryWasNoted(ops: seq<Op>, n: nat, h: Header, t: InfoText)
    requires n <= |ops| && HasEntry(Run(ops, n), h, t)
    ensures exists i :: 0 <= i < n && Notes(Run(ops, i), ops[i], h, t)
  {
    if n == 0 {
      assert false;
    } else {
      var j := n - 1;
      EntryFrom(Run(ops, j), ops[j], h, t);
      if !Notes(Run(ops, j), ops[j], h, t) {
        var u :| HasEntry(Run(ops, j), h, u) && SameLayer(t, u);
        EveryEntryWasNoted(ops, j, h, u);
        var i :| 0 <= i < j && Notes(Run(ops, i), ops[i], h, u);
        assert Notes(Run(ops, i), ops[i], h, t);
      }
    }
  }
}
