/** The pose debugger object: its two maps of list objects, changed in place. */
module PoseDebugger {
  import opened Collections
  import opened InfoTexts
  import opened PoseTracker

  type Lists = map<Header, ModelPoseDebugInfo>

  /** The list objects hold the models. */
  ghost predicate Hold(lists: Lists, models: map<Header, Model>)
    requires lists.Keys == models.Keys
    reads lists.Values
  {
    forall h | h in lists :: models[h] == Model(lists[h].entNum, Info(lists[h].currentText, lists[h].arrTxt))
  }

  /** Different models have different list objects. */
  ghost predicate Separate(lists: Lists) {
    forall g, h | g in lists && h in lists && g != h :: lists[g] != lists[h]
  }

  /** No list object is in both maps. */
  ghost predicate Apart(lists: Lists, others: Lists) {
    forall h | h in others :: others[h] !in lists.Values
  }

  /** One call on a list object, and the display that follows it. */
  method AddAndPrint(mpi: ModelPoseDebugInfo, pOld: ModelPoseDebugInfo?, x: Option<InfoText>, frameTime: real,
                     fadeOut: real, rnPosPrint: int)
    returns (pos: int)
    requires mpi.Valid() && pOld != mpi && (pOld != null ==> pOld.Valid())
    modifies mpi, pOld
    ensures mpi.arrTxt == old(mpi.arrTxt)
                          + Added(x, if pOld == null then None else Some(old(pOld.View())), frameTime, fadeOut)
    ensures mpi.currentText == |mpi.arrTxt| && pos == rnPosPrint + LinesFrom(mpi.arrTxt, old(mpi.currentText))
    ensures pOld != null ==> pOld.View() == Advanced(x, old(pOld.View()), frameTime) && pOld.Valid()
  {
    mpi.AddInfoText(x, pOld, frameTime, fadeOut);
    pos := mpi.PrintPendingInfoText(rnPosPrint);
  }

  /** Adds to the list of model h, against its list of the last frame, and shows what is new. */
  method AddAgainst(lists: Lists, others: Lists, h: Header, x: Option<InfoText>, frameTime: real, fadeOut: real,
                    rnPosPrint: int, ghost s: Tracker)
    returns (pos: int)
    requires Separate(lists) && Separate(others) && Apart(lists, others)
    requires lists.Keys == s.current.Keys && others.Keys == s.previous.Keys && h in lists && rnPosPrint == s.pos
    requires Hold(lists, s.current) && Hold(others, s.previous) && Ready(s) && h in others
    modifies lists.Values, others.Values
    ensures var t := AddText(s, h, x, frameTime, fadeOut);
            && t.current.Keys == lists.Keys && t.previous.Keys == others.Keys
            && Hold(lists, t.current) && Hold(others, t.previous) && pos == t.pos
  {
    pos := AddAndPrint(lists[h], others[h], x, frameTime, fadeOut, rnPosPrint);
  }

  /** The same when there may be no list of the last frame. */
  method AddToLists(lists: Lists, others: Lists, h: Header, x: Option<InfoText>, frameTime: real, fadeOut: real,
                    rnPosPrint: int, ghost s: Tracker)
    returns (pos: int)
    requires Separate(lists) && Separate(others) && Apart(lists, others)
    requires lists.Keys == s.current.Keys && others.Keys == s.previous.Keys && h in lists && rnPosPrint == s.pos
    requires Hold(lists, s.current) && Hold(others, s.previous) && Ready(s)
    modifies lists.Values, others.Values
    ensures var t := AddText(s, h, x, frameTime, fadeOut);
            && t.current.Keys == lists.Keys && t.previous.Keys == others.Keys
            && Hold(lists, t.current) && Hold(others, t.previous) && pos == t.pos
  {
    if h in others {
      pos := AddAgainst(lists, others, h, x, frameTime, fadeOut, rnPosPrint, s);
    } else {
      pos := AddAndPrint(lists[h], null, x, frameTime, fadeOut, rnPosPrint);
    }
  }

  /** The loop that takes the lists of the last frame back to their beginnings. */
  method Rewind(lists: Lists, ghost models: map<Header, Model>)
    requires Separate(lists) && lists.Keys == models.Keys && Hold(lists, models)
    modifies lists.Values
    ensures Hold(lists, Rewound(models))
  {
    var left := lists.Keys;
    while left != {}
      invariant left <= lists.Keys
      invariant forall h | h in lists ::
                  && lists[h].arrTxt == models[h].info.texts
                  && lists[h].currentText == if h in left then models[h].info.cursor else 0
      decreases |left|
    {
      var h :| h in left;
      lists[h].currentText := 0;
      left := left - {h};
    }
  }

  class PoseDebuggerImpl {
    ghost var state: Tracker
    var mapModel: Lists
    var mapModelOld: Lists
    var nPosPrint: int
    var maskShowModels: set<int>
    var lastModel: Option<Header>

    ghost predicate Valid()
      reads this, mapModel.Values, mapModelOld.Values
    {
      && mapModel.Keys == state.current.Keys && mapModelOld.Keys == state.previous.Keys
      && Hold(mapModel, state.current) && Hold(mapModelOld, state.previous) && Ready(state)
      && Separate(mapModel) && Separate(mapModelOld) && Apart(mapModel, mapModelOld)
      && state.lastModel == lastModel && state.pos == nPosPrint && state.shown == maskShowModels
    }

    constructor ()
      ensures Valid() && state == Initial()
      ensures mapModel == map[] && mapModelOld == map[] && nPosPrint == 0 && lastModel == None
    {
      state := Initial();
      mapModel := map[];
      mapModelOld := map[];
      nPosPrint := 0;
      lastModel := None;
      maskShowModels := EVERY_ENTITY;
    }

    method ShowAllModels(show: bool)
      requires Valid()
      modifies `maskShowModels, `state
      ensures Valid() && state == ShowAll(old(state), show)
    {
      maskShowModels := if show then EVERY_ENTITY else {};
      state := ShowAll(state, show);
    }

    method ShowModel(ent: int, show: bool)
      requires Valid()
      modifies `maskShowModels, `state
      ensures Valid() && state == ShowOne(old(state), ent, show)
    {
      if ent < MAX_EDICTS {
        maskShowModels := if show then maskShowModels + {ent} else maskShowModels - {ent};
      }
      state := ShowOne(state, ent, show);
    }

    predicate IsModelShown(ent: int)
      reads this
    {
      if 0 <= ent < MAX_EDICTS then ent in maskShowModels else false
    }

    method AddToModel(h: Header, x: Option<InfoText>, frameTime: real, fadeOut: real)
      requires Valid() && h in mapModel
      modifies `nPosPrint, `state, mapModel.Values, mapModelOld.Values
      ensures Valid() && state == AddText(old(state), h, x, frameTime, fadeOut)
    {
      hide AddText, Ready, Apart, Separate, Hold;
      AddTextReady(state, h, x, frameTime, fadeOut);
      nPosPrint := AddToLists(mapModel, mapModelOld, h, x, frameTime, fadeOut, nPosPrint, state);
      state := AddText(state, h, x, frameTime, fadeOut);
    }

    /** Begins blending a model: closes the one before if it is another, and lets a model seen again begin a frame. */
    method StartBlending(h: Header, includes: bool, ent: int, frameTime: real)
      requires Valid()
      modifies this, mapModel.Values, mapModelOld.Values
      ensures Valid() && state == Begin(old(state), h, includes, ent, frameTime)
      ensures fresh((mapModel.Values + mapModelOld.Values) - old(mapModel.Values + mapModelOld.Values))
    {
      hide Hold, Apart, Separate, Switch, Enter;
      LeaveLast(h, frameTime);
      if !includes || !IsModelShown(ent) {
        return;
      }
      EnterModel(h, ent);
    }

    method LeaveLast(h: Header, frameTime: real)
      requires Valid()
      modifies `nPosPrint, `state, `lastModel, mapModel.Values, mapModelOld.Values
      ensures Valid() && state == Switch(old(state), h, frameTime)
    {
      if lastModel.Some? && lastModel != Some(h) && lastModel.value in mapModel {
        AddToModel(lastModel.value, None, frameTime, 0.0);
      }
      MarkLast(h);
    }

    method MarkLast(h: Header)
      requires Valid()
      modifies `state, `lastModel
      ensures Valid() && state == old(state).(lastModel := Some(h))
    {
      hide Apart, Separate, Hold;
      lastModel := Some(h);
      state := state.(lastModel := lastModel);
    }

    method EnterModel(h: Header, ent: int)
      requires Valid()
      modifies this, mapModel.Values, mapModelOld.Values
      ensures Valid() && state == Enter(old(state), h, ent)
      ensures fresh((mapModel.Values + mapModelOld.Values) - old(mapModel.Values + mapModelOld.Values))
    {
      hide Hold, Apart, Separate, Ready;
      if h in mapModel {
        SwapMaps();
      } else {
        SkipLines();
      }
      InsertModel(h, ent);
    }

    method SkipLines()
      requires Valid()
      modifies `nPosPrint, `state
      ensures Valid() && state == old(state).(pos := old(state.pos) + 3)
    {
      hide Hold, Apart, Separate;
      nPosPrint := nPosPrint + 3;
      state := state.(pos := nPosPrint);
    }

    method SwapMaps()
      requires Valid()
      modifies this, mapModel.Values
      ensures Valid() && state == old(state).(current := map[], previous := Rewound(old(state.current)), pos := 9)
      ensures mapModelOld == old(mapModel) && mapModel == map[]
    {
      nPosPrint := 9;
      mapModelOld := mapModel;
      mapModel := map[];
      state := state.(current := map[], previous := Rewound(state.current), pos := 9);
      Rewind(mapModelOld, old(state.current));
    }

    method InsertModel(h: Header, ent: int)
      requires Valid()
      modifies this
      ensures Valid()
      ensures state == old(state).(current := old(state.current)[h := Model(ent, Info(0, []))],
                                   pos := old(state.pos) + 3)
      ensures mapModelOld == old(mapModelOld) && fresh(mapModel.Values - old(mapModel.Values))
    {
      var mpi := new ModelPoseDebugInfo(ent);
      mapModel := mapModel[h := mpi];
      nPosPrint := nPosPrint + 3;
      state := state.(current := state.current[h := Model(ent, Info(0, []))], pos := state.pos + 3);
    }

    /** Takes note of a layer, if its model has a list and is shown, and says what age is shown with it. */
    method AccumulatePose(h: Header, includes: bool, layer: Layer, frameTime: real, fadeOut: real)
      returns (age: Option<real>)
      requires Valid()
      modifies `nPosPrint, `state, mapModel.Values, mapModelOld.Values
      ensures Valid() && state == Note(old(state), h, includes, layer, frameTime, fadeOut)
      ensures age == NotedAge(old(state), h, includes, layer)
    {
      hide Hold, Apart, Separate;
      if !includes || h !in mapModel {
        return None;
      }
      var shown, txt := DescribeLayer(h, layer);
      if !shown {
        return None;
      }
      var oldAge := AgeBefore(h, txt);
      age := Some(oldAge);
      AddToModel(h, Some(txt), frameTime, fadeOut);
    }

    method DescribeLayer(h: Header, layer: Layer) returns (shown: bool, txt: InfoText)
      requires Valid() && h in mapModel
      ensures shown == IsShown(state, state.current[h].entNum)
      ensures txt == WithActivity(layer, state.current[h].info.texts)
    {
      shown := IsModelShown(mapModel[h].entNum);
      txt := Described(layer);
      if txt.activity == "" {
        var last := LastSeenActivity(mapModel[h]);
        txt := txt.(activity := last);
      }
    }

    method AgeBefore(h: Header, txt: InfoText) returns (age: real)
      requires Valid()
      ensures age == ShownAge(txt, PreviousInfo(state, h))
    {
      age := 0.0;
      if h in mapModelOld {
        var found := mapModelOld[h].LookupInfoText(Some(txt));
        if found.Some? {
          age := mapModelOld[h].arrTxt[found.value].timeAlive;
        }
      }
    }

    /** The loop that goes back for an activity to reuse. */
    method LastSeenActivity(mpi: ModelPoseDebugInfo) returns (activity: string)
      ensures activity == LastActivity(mpi.arrTxt, |mpi.arrTxt|)
    {
      activity := "";
      for last := |mpi.arrTxt| downto 0
        invariant LastActivity(mpi.arrTxt, |mpi.arrTxt|) == LastActivity(mpi.arrTxt, last)
      {
        if mpi.arrTxt[last].thisFrame && mpi.arrTxt[last].activity != "" {
          return mpi.arrTxt[last].activity;
        }
      }
    }
  }
}
