/** The pose debugger over all models as a state machine on values. */
module PoseTracker {
  import opened Collections
  import opened InfoTexts

  /** A model is known by the address of its header. */
  type Header = nat

  const MAX_EDICTS := 2048

  datatype Model = Model(entNum: int, info: Info)

  /** The lists of this frame and of the last, the model blending began with last, the console line and the entities
      shown. */
  datatype Tracker = Tracker(current: map<Header, Model>, previous: map<Header, Model>, lastModel: Option<Header>,
                             pos: int, shown: set<int>)

  /** What the debugger is told of a layer of animation. */
  datatype Layer = Layer(number: int, activity: string, title: string, lines: nat)

  datatype Op =
    | Start(header: Header, includes: bool, ent: int, frameTime: real)
    | Accumulate(header: Header, includes: bool, layer: Layer, frameTime: real, fadeOut: real)
    | ShowAllModels(show: bool)
    | ShowModel(ent: int, show: bool)

  const EVERY_ENTITY: set<int> := set e | 0 <= e < MAX_EDICTS

  function Initial(): Tracker {
    Tracker(map[], map[], None, 0, EVERY_ENTITY)
  }

  // ----- one operation -----

  function Described(layer: Layer): InfoText {
    InfoText(false, false, 0.0, 0.0, layer.number, layer.activity, layer.title, layer.lines)
  }

  /** The activity of the last live entry that names one, among the first n. */
  function LastActivity(ts: seq<InfoText>, n: nat): string
    requires n <= |ts|
  {
    if n == 0 then ""
    else if ts[n - 1].thisFrame && ts[n - 1].activity != "" then ts[n - 1].activity
    else LastActivity(ts, n - 1)
  }

  /** A layer without an activity takes the one last seen. */
  function WithActivity(layer: Layer, ts: seq<InfoText>): InfoText {
    var x := Described(layer);
    if x.activity == "" then x.(activity := LastActivity(ts, |ts|)) else x
  }

  predicate Ready(s: Tracker) {
    && (forall h | h in s.current :: s.current[h].info.Valid())
    && forall h | h in s.previous :: s.previous[h].info.Valid()
  }

  function PreviousInfo(s: Tracker, h: Header): Option<Info> {
    if h in s.previous then Some(s.previous[h].info) else None
  }

  /** Adds to the list of model h and shows what is new in it. */
  function AddText(s: Tracker, h: Header, x: Option<InfoText>, frameTime: real, fadeOut: real): (t: Tracker)
    requires Ready(s) && h in s.current
  {
    var m := s.current[h];
    var texts := m.info.texts + Added(x, PreviousInfo(s, h), frameTime, fadeOut);
    s.(current := s.current[h := Model(m.entNum, Info(|texts|, texts))],
       previous := if h !in s.previous then s.previous else
                     s.previous[h := Model(s.previous[h].entNum, Advanced(x, s.previous[h].info, frameTime))],
       pos := s.pos + LinesFrom(texts, m.info.cursor))
  }

  lemma AddTextReady(s: Tracker, h: Header, x: Option<InfoText>, frameTime: real, fadeOut: real)
    requires Ready(s) && h in s.current
    ensures var t := AddText(s, h, x, frameTime, fadeOut);
            Ready(t) && t.lastModel == s.lastModel && t.shown == s.shown
  {
  }

  /** Leaves the model before, closing its frame, unless it is the same. */
  function Switch(s: Tracker, h: Header, frameTime: real): Tracker
    requires Ready(s)
  {
    var t := if s.lastModel.Some? && s.lastModel != Some(h) && s.lastModel.value in s.current
             then AddText(s, s.lastModel.value, None, frameTime, 0.0) else s;
    t.(lastModel := Some(h))
  }

  /** The lists as the lists of the last frame, at their beginnings. */
  function Rewound(models: map<Header, Model>): map<Header, Model> {
    map h | h in models :: Model(models[h].entNum, Info(0, models[h].info.texts))
  }

  /** A model seen again begins a frame. */
  function Enter(s: Tracker, h: Header, ent: int): Tracker {
    var m := Model(ent, Info(0, []));
    if h in s.current then s.(current := map[h := m], previous := Rewound(s.current), pos := 12)
    else s.(current := s.current[h := m], pos := s.pos + 6)
  }

  predicate IsShown(s: Tracker, ent: int) {
    0 <= ent < MAX_EDICTS && ent in s.shown
  }

  /** StartBlending. */
  function Begin(s: Tracker, h: Header, includes: bool, ent: int, frameTime: real): Tracker
    requires Ready(s)
  {
    var t := Switch(s, h, frameTime);
    if includes && IsShown(t, ent) then Enter(t, h, ent) else t
  }

  /** AccumulatePose. */
  function Note(s: Tracker, h: Header, includes: bool, layer: Layer, frameTime: real, fadeOut: real): Tracker
    requires Ready(s)
  {
    if includes && h in s.current && IsShown(s, s.current[h].entNum)
    then AddText(s, h, Some(WithActivity(layer, s.current[h].info.texts)), frameTime, fadeOut) else s
  }

  /** The age shown with a layer: that of the entry it is found again as, or 0. */
  function ShownAge(x: InfoText, prev: Option<Info>): real
    requires prev.Some? ==> prev.value.Valid()
  {
    if prev.Some? && Target(Some(x), prev.value) < |prev.value.texts|
    then prev.value.texts[Target(Some(x), prev.value)].timeAlive else 0.0
  }

  function NotedAge(s: Tracker, h: Header, includes: bool, layer: Layer): Option<real>
    requires Ready(s)
  {
    if includes && h in s.current && IsShown(s, s.current[h].entNum)
    then Some(ShownAge(WithActivity(layer, s.current[h].info.texts), PreviousInfo(s, h))) else None
  }

  function ShowAll(s: Tracker, show: bool): Tracker {
    s.(shown := if show then EVERY_ENTITY else {})
  }

  function ShowOne(s: Tracker, ent: int, show: bool): Tracker {
    if ent < MAX_EDICTS then s.(shown := if show then s.shown + {ent} else s.shown - {ent}) else s
  }

  function Apply(s: Tracker, op: Op): Tracker
    requires Ready(s)
  {
    match op
    case Start(h, includes, ent, frameTime) => Begin(s, h, includes, ent, frameTime)
    case Accumulate(h, includes, layer, frameTime, fadeOut) => Note(s, h, includes, layer, frameTime, fadeOut)
    case ShowAllModels(show) => ShowAll(s, show)
    case ShowModel(ent, show) => ShowOne(s, ent, show)
  }

  // ----- what is shown, and what is left alone -----

  /** After ShowAllModels every entity in range is shown, or none. */
  lemma ShowAllIs(s: Tracker, show: bool, e: int)
    ensures IsShown(ShowAll(s, show), e) <==> show && 0 <= e < 2048
    ensures IsShown(Initial(), e) <==> 0 <= e < 2048
  {
  }

  /** After ShowModel the entity is shown or not as asked for, and every other is as it was. */
  lemma ShowOneIs(s: Tracker, ent: int, show: bool, e: int)
    ensures IsShown(ShowOne(s, ent, show), e) <==> if e == ent then show && 0 <= e < 2048 else IsShown(s, e)
    ensures ShowOne(s, ent, show).current == s.current && ShowOne(s, ent, show).previous == s.previous
  {
  }

  /** Without an entry that matches, the age shown is 0. */
  lemma NothingFoundShowsZero(x: InfoText, prev: Option<Info>)
    requires prev.Some? ==> prev.value.Valid()
    requires prev.Some? ==> forall p | prev.value.cursor <= p < |prev.value.texts| :: !Matches(prev.value.texts[p], x)
    ensures ShownAge(x, prev) == 0.0
  {
  }

  /** Starting a model without include models, or of an entity that is not shown, only leaves the model before; starting
      another adds it with an empty list, three lines down and three for its name; starting one again begins a frame, at
      line nine and three for its name. */
  lemma BeginCases(s: Tracker, h: Header, includes: bool, ent: int, frameTime: real)
    requires Ready(s)
    ensures var t, u, m := Switch(s, h, frameTime), Begin(s, h, includes, ent, frameTime), Model(ent, Info(0, []));
            && (!includes || !IsShown(s, ent) ==> u == t)
            && (includes && IsShown(s, ent) && h !in s.current ==>
                  u == Tracker(t.current[h := m], t.previous, Some(h), t.pos + 3 + 3, s.shown))
            && (includes && IsShown(s, ent) && h in s.current ==>
                  u.current == map[h := m] && u.previous.Keys == s.current.Keys && u.lastModel == Some(h)
                  && u.pos == 9 + 3 && u.shown == s.shown)
  {
  }

  /** A layer of a model without include models, without a list, or of an entity that is not shown is not noted; any
      other is the new last entry of its model's list, live, and says what the layer says. */
  lemma NoteCases(s: Tracker, h: Header, includes: bool, layer: Layer, frameTime: real, fadeOut: real)
    requires Ready(s)
    ensures !includes || h !in s.current || !IsShown(s, s.current[h].entNum) ==>
              Note(s, h, includes, layer, frameTime, fadeOut) == s && NotedAge(s, h, includes, layer).None?
    ensures includes && h in s.current && IsShown(s, s.current[h].entNum) ==>
              var ts := Note(s, h, includes, layer, frameTime, fadeOut).current[h].info.texts;
              && |ts| > |s.current[h].info.texts| && Says(ts[|ts| - 1], layer) && ts[|ts| - 1].thisFrame
              && ts[|ts| - 1].timeToLive == fadeOut && NotedAge(s, h, includes, layer).Some?
  {
    if includes && h in s.current && IsShown(s, s.current[h].entNum) {
      LastAdded(s, h, WithActivity(layer, s.current[h].info.texts), frameTime, fadeOut);
    }
  }

  /** An entry shows what a layer is: its number, label and lines, and its activity if it has one. */
  predicate Says(t: InfoText, layer: Layer) {
    && t.number == layer.number && t.title == layer.title && t.lines == layer.lines
    && (layer.activity != "" ==> t.activity == layer.activity)
  }

  lemma LastAdded(s: Tracker, h: Header, x: InfoText, frameTime: real, fadeOut: real)
    requires Ready(s) && h in s.current
    ensures var ts := AddText(s, h, Some(x), frameTime, fadeOut).current[h].info.texts;
            && |ts| > |s.current[h].info.texts| && SameLayer(ts[|ts| - 1], x) && ts[|ts| - 1].thisFrame
            && ts[|ts| - 1].timeToLive == fadeOut
  {
    var added := Added(Some(x), PreviousInfo(s, h), frameTime, fadeOut);
    assert |added| > 0 && SameLayer(added[|added| - 1], x);
    assert (s.current[h].info.texts + added)[|s.current[h].info.texts| + |added| - 1] == added[|added| - 1];
  }

  /** Two entries are about the same layer, letter by letter. */
  predicate SameLayer(t: InfoText, x: InfoText) {
    t.number == x.number && t.activity == x.activity && t.title == x.title && t.lines == x.lines
  }

  // ----- what every run keeps -----

  /** No entry is of neither frame. */
  predicate WellFlagged(ts: seq<InfoText>) {
    forall t | t in ts :: t.thisFrame || t.lastFrame
  }

  /** A list of the last frame that has been gone through to its end. */
  predicate ClosedIn(s: Tracker, h: Header) {
    h in s.previous ==> s.previous[h].info.AtEnd()
  }

  /** Every model of this frame has been closed, but perhaps the last; its list is all shown; and no list holds an
      entry of neither frame. */
  ghost predicate Inv(s: Tracker) {
    && Ready(s)
    && (forall h | h in s.current :: s.current[h].info.AtEnd() && WellFlagged(s.current[h].info.texts))
    && (forall h | h in s.previous :: WellFlagged(s.previous[h].info.texts))
    && (forall h | h in s.current && s.lastModel != Some(h) :: ClosedIn(s, h))
    && (s.lastModel.None? ==> s.current == map[])
  }

  lemma FlagsKept(x: Option<InfoText>, prev: Option<Info>, frameTime: real, fadeOut: real)
    requires prev.Some? ==> prev.value.Valid() && WellFlagged(prev.value.texts)
    ensures WellFlagged(Added(x, prev, frameTime, fadeOut))
    ensures prev.Some? ==> WellFlagged(Advanced(x, prev.value, frameTime).texts)
  {
    if prev.Some? {
      var o, k := prev.value, Target(x, prev.value);
      assert forall p | 0 <= p < |o.texts| :: o.texts[p] in o.texts;
      SurvivorsFlagged(o.texts[o.cursor..k], frameTime, k - o.cursor);
    }
  }

  lemma {:induction false} SurvivorsFlagged(ts: seq<InfoText>, frameTime: real, n: nat)
    requires n <= |ts| && WellFlagged(ts)
    ensures WellFlagged(CollectFirst(ts, Surviving(frameTime), n))
  {
    if n == 0 {
    } else {
      SurvivorsFlagged(ts, frameTime, n - 1);
      assert ts[n - 1] in ts;
    }
  }

  /** A call against a list at its end leaves it there. */
  lemma StaysAtEnd(x: Option<InfoText>, prev: Info, frameTime: real)
    requires prev.AtEnd()
    ensures Advanced(x, prev, frameTime).AtEnd()
  {
  }

  lemma AddTextKeeps(s: Tracker, h: Header, x: Option<InfoText>, frameTime: real, fadeOut: real)
    requires Inv(s) && h in s.current
    ensures Inv(AddText(s, h, x, frameTime, fadeOut))
    ensures x.None? ==> ClosedIn(AddText(s, h, x, frameTime, fadeOut), h)
  {
    FlagsKept(x, PreviousInfo(s, h), frameTime, fadeOut);
    if h in s.previous && s.previous[h].info.AtEnd() {
      StaysAtEnd(x, s.previous[h].info, frameTime);
    }
  }

  /** Leaving a model closes it, so every model but the new one is closed, and the new one if it was. */
  lemma SwitchCloses(s: Tracker, h: Header, frameTime: real)
    requires Inv(s)
    ensures Inv(Switch(s, h, frameTime))
    ensures forall g | g in s.current && g != h :: ClosedIn(Switch(s, h, frameTime), g)
    ensures Switch(s, h, frameTime).current.Keys == s.current.Keys
    ensures s.lastModel != Some(h) && h in s.current ==> ClosedIn(Switch(s, h, frameTime), h)
    ensures s.lastModel == Some(h) ==> Switch(s, h, frameTime) == s
  {
    if s.lastModel.Some? && s.lastModel != Some(h) && s.lastModel.value in s.current {
      AddTextKeeps(s, s.lastModel.value, None, frameTime, 0.0);
    }
  }

  lemma ApplyKeeps(s: Tracker, op: Op)
    requires Inv(s)
    ensures Inv(Apply(s, op))
  {
    match op
    case Start(h, includes, ent, frameTime) =>
      SwitchCloses(s, h, frameTime);
    case Accumulate(h, includes, layer, frameTime, fadeOut) =>
      if h in s.current {
        AddTextKeeps(s, h, Some(WithActivity(layer, s.current[h].info.texts)), frameTime, fadeOut);
      }
    case ShowAllModels(_) =>
    case ShowModel(_, _) =>
  }

  lemma ApplyReady(s: Tracker, op: Op)
    requires Ready(s)
    ensures Ready(Apply(s, op))
  {
  }

  /** The state after the first n operations of a run. */
  ghost function Run(ops: seq<Op>, n: nat): (s: Tracker)
    requires n <= |ops|
    ensures Ready(s)
  {
    if n == 0 then Initial()
    else
      ApplyReady(Run(ops, n - 1), ops[n - 1]);
      Apply(Run(ops, n - 1), ops[n - 1])
  }

  /** Every state of every run satisfies the invariant. */
  lemma {:induction false} EveryRunKeeps(ops: seq<Op>, n: nat)
    requires n <= |ops|
    ensures Inv(Run(ops, n))
  {
    if n == 0 {
    } else {
      EveryRunKeeps(ops, n - 1);
      ApplyKeeps(Run(ops, n - 1), ops[n - 1]);
    }
  }

  /** A layer found again goes on from the age shown with it. */
  lemma ShownAgeGoesOn(s: Tracker, h: Header, layer: Layer, x: InfoText, o: Info, frameTime: real, fadeOut: real)
    requires Ready(s) && h in s.current && IsShown(s, s.current[h].entNum)
    requires x == WithActivity(layer, s.current[h].info.texts) && PreviousInfo(s, h) == Some(o)
    requires Target(Some(x), o) < |o.texts|
    ensures var ts := Note(s, h, true, layer, frameTime, fadeOut).current[h].info.texts;
            && |ts| > 0 && ts[|ts| - 1].lastFrame && KeyOf(ts[|ts| - 1]) == KeyOf(x)
            && NotedAge(s, h, true, layer) == Some(ts[|ts| - 1].timeAlive - frameTime)
  {
    var kept := Collect(o.texts[o.cursor..Target(Some(x), o)], Surviving(frameTime));
    var t := Continuing(x, o.texts[Target(Some(x), o)], frameTime, fadeOut);
    assert s.current[h].info.texts + (kept + [t]) == (s.current[h].info.texts + kept) + [t];
  }

  // ----- the swap of the lists -----

  /** This operation makes the lists of this frame those of the last. */
  predicate Swaps(s: Tracker, op: Op) {
    op.Start? && op.includes && IsShown(s, op.ent) && op.header in s.current
  }

  /** Every model in both maps has been gone through to the end. */
  ghost predicate AllClosed(s: Tracker) {
    forall h | h in s.current :: ClosedIn(s, h)
  }

  /** In every run, a swap finds every model closed exactly if it does not restart the model it leaves open; then the
      lists of this frame become those of the last, at their beginnings, and only the new model has a list, empty. */
  lemma SwapFindsAllClosed(ops: seq<Op>, n: nat)
    requires n < |ops| && Swaps(Run(ops, n), ops[n])
    ensures var s, t, h := Run(ops, n), Run(ops, n + 1), ops[n].header;
            var left := Switch(s, h, ops[n].frameTime);
            && (AllClosed(left) <==> s.lastModel != Some(h) || ClosedIn(s, h))
            && t.previous.Keys == left.current.Keys
            && (forall g | g in t.previous ::
                  t.previous[g].info.cursor == 0 && t.previous[g].info.texts == left.current[g].info.texts)
            && t.current == map[h := Model(ops[n].ent, Info(0, []))]
  {
    var s, h := Run(ops, n), ops[n].header;
    EveryRunKeeps(ops, n);
    SwitchCloses(s, h, ops[n].frameTime);
  }

  function OneModelRun(layer: Layer, d: real, fadeOut: real): seq<Op> {
    [Start(1, true, 0, d), Accumulate(1, true, layer, d, fadeOut), Start(1, true, 0, d), Start(1, true, 0, d)]
  }

  lemma BeginsFresh(s: Tracker, d: real)
    requires s == Initial()
    ensures var t := Apply(s, Start(1, true, 0, d));
            && t.current == map[1 := Model(0, Info(0, []))] && t.lastModel == Some(1)
            && t.previous == map[] && t.shown == EVERY_ENTITY
  {
  }

  lemma OneLayer(s: Tracker, layer: Layer, d: real, fadeOut: real)
    requires s.current == map[1 := Model(0, Info(0, []))] && s.lastModel == Some(1)
    requires s.previous == map[] && s.shown == EVERY_ENTITY
    ensures var t := Apply(s, Accumulate(1, true, layer, d, fadeOut));
            && t.current == map[1 := Model(0, Info(1, [Entering(WithActivity(layer, []), fadeOut)]))]
            && t.lastModel == Some(1) && t.previous == map[] && t.shown == EVERY_ENTITY
  {
    var x := Entering(WithActivity(layer, []), fadeOut);
    assert [] + Added(Some(WithActivity(layer, [])), None, d, fadeOut) == [x];
  }

  lemma Restarts(s: Tracker, d: real, info: Info)
    requires Ready(s) && s.current == map[1 := Model(0, info)] && s.lastModel == Some(1) && s.shown == EVERY_ENTITY
    ensures var t := Apply(s, Start(1, true, 0, d));
            && t.current == map[1 := Model(0, Info(0, []))] && t.lastModel == Some(1)
            && t.previous == map[1 := Model(0, Info(0, info.texts))] && t.shown == EVERY_ENTITY
  {
  }

  /** Restarting the only model skips its closing call: here the one layer of the frame before is never dealt with. */
  lemma RestartSkipsClosing(layer: Layer, d: real, fadeOut: real)
    ensures var ops := OneModelRun(layer, d, fadeOut);
            var s := Run(ops, 3);
            && Swaps(s, ops[3]) && Switch(s, 1, d) == s && !AllClosed(s)
            && 1 in s.previous && s.previous[1].info == Info(0, [Entering(WithActivity(layer, []), fadeOut)])
  {
    var ops := OneModelRun(layer, d, fadeOut);
    var x := WithActivity(layer, []);
    assert Run(ops, 0) == Initial();
    BeginsFresh(Run(ops, 0), d);
    OneLayer(Run(ops, 1), layer, d, fadeOut);
    Restarts(Run(ops, 2), d, Info(1, [Entering(x, fadeOut)]));
  }
}
