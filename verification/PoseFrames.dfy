/** Whole runs of the pose debugger over several models: each model's list goes through its own merges, as if it were
    alone. */
module PoseFrames {
  import opened Collections
  import opened InfoTexts
  import opened FrameMerge
  import opened FrameRuns
  import opened PoseTracker

  /** The models that are blended in every frame, in this order, and their entities. */
  datatype Cast = Cast(headers: seq<Header>, ents: seq<int>)

  ghost predicate ValidCast(cast: Cast) {
    && |cast.headers| == |cast.ents| >= 2
    && (forall i, j | 0 <= i < j < |cast.headers| :: cast.headers[i] != cast.headers[j])
    && forall i | 0 <= i < |cast.ents| :: 0 <= cast.ents[i] < MAX_EDICTS
  }

  /** One frame of the game: the layers of each model, the frame time and the fade-out time. */
  datatype Tick = Tick(layers: seq<seq<Layer>>, frameTime: real, fadeOut: real)

  // ----- the activity of a layer without one -----

  /** The activity of a layer is its own or that of the nearest layer before it in the frame that has one. */
  function Carried(layers: seq<Layer>, i: nat): string
    requires i < |layers|
  {
    if i == 0 || layers[i].activity != "" then layers[i].activity else Carried(layers, i - 1)
  }

  function CallsFor(layers: seq<Layer>, frameTime: real, fadeOut: real): (xs: seq<Call>)
    ensures |xs| == |layers|
  {
    seq(|layers|, i requires 0 <= i < |layers| =>
      Call(Described(layers[i]).(activity := Carried(layers, i)), frameTime, fadeOut))
  }

  function LastNamed(ts: seq<InfoText>, n: nat): string
    requires n <= |ts|
  {
    if n == 0 then "" else if ts[n - 1].activity != "" then ts[n - 1].activity else LastNamed(ts, n - 1)
  }

  lemma {:induction false} LastNamedPrefix(ts: seq<InfoText>, us: seq<InfoText>, n: nat)
    requires n <= |ts| && n <= |us| && ts[..n] == us[..n]
    ensures LastNamed(ts, n) == LastNamed(us, n)
  {
    if n == 0 {
    } else {
      assert ts[n - 1] == ts[..n][n - 1] == us[..n][n - 1];
      assert ts[..n - 1] == ts[..n][..n - 1] && us[..n - 1] == us[..n][..n - 1];
      LastNamedPrefix(ts, us, n - 1);
    }
  }

  /** Only live entries are looked at. */
  lemma {:induction false} LastActivityIsLive(ts: seq<InfoText>, n: nat)
    requires n <= |ts|
    ensures LastActivity(ts, n) == LastNamed(CollectFirst(ts, Live, n), |CollectFirst(ts, Live, n)|)
  {
    if n == 0 {
    } else {
      var j := n - 1;
      LastActivityIsLive(ts, j);
      var before, after := CollectFirst(ts, Live, j), CollectFirst(ts, Live, n);
      if ts[j].thisFrame {
        assert after == before + [ts[j]] && after[..|before|] == before[..|before|];
        LastNamedPrefix(before, after, |before|);
      } else {
        assert after == before;
      }
    }
  }

  lemma {:induction false} LastNamedIsCarried(ts: seq<InfoText>, layers: seq<Layer>, n: nat)
    requires 1 <= n <= |layers| && n <= |ts| && forall i | 0 <= i < n :: ts[i].activity == Carried(layers, i)
    ensures LastNamed(ts, n) == Carried(layers, n - 1)
  {
    if n > 1 {
      LastNamedIsCarried(ts, layers, n - 1);
    }
  }

  /** The layers of the last frame have no part in it. */
  lemma ActivityCarries(list: seq<InfoText>, layers: seq<Layer>, i: nat, frameTime: real, fadeOut: real)
    requires i < |layers|
    ensures var xs := CallsFor(layers, frameTime, fadeOut);
            WithActivity(layers[i], During(list, xs, i).texts) == xs[i].text
  {
    var xs := CallsFor(layers, frameTime, fadeOut);
    var ts := During(list, xs, i).texts;
    LastActivityIsLive(ts, |ts|);
    LiveDuring(list, xs, i);
    var live := Collect(ts, Live);
    if i > 0 {
      EnteredNamed(list, layers, i, frameTime, fadeOut);
      LastNamedIsCarried(live, layers, i);
    }
  }

  lemma EnteredNamed(list: seq<InfoText>, layers: seq<Layer>, i: nat, frameTime: real, fadeOut: real)
    requires i <= |layers|
    ensures var xs := CallsFor(layers, frameTime, fadeOut);
            forall k | 0 <= k < i :: EnteredBy(list, xs, i)[k].activity == Carried(layers, k)
  {
  }

  // ----- one model during its layers -----

  ghost predicate Prior(s: Tracker, h: Header, o: Info) {
    if h in s.previous then s.previous[h].info == o else o == Info(0, [])
  }

  ghost predicate Showing(s: Tracker, h: Header, ent: int, texts: seq<InfoText>) {
    h in s.current && s.current[h] == Model(ent, Info(|texts|, texts))
  }

  /** Model h, whose list of the last frame was list, is through i of its calls xs. */
  ghost predicate Running(s: Tracker, h: Header, ent: int, list: seq<InfoText>, xs: seq<Call>, i: nat)
    requires i <= |xs|
  {
    Showing(s, h, ent, During(list, xs, i).texts) && Prior(s, h, During(list, xs, i).prev)
  }

  /** Nothing about the other models has changed. */
  ghost predicate SameElsewhere(s: Tracker, t: Tracker, h: Header) {
    && t.shown == s.shown
    && (forall g | g != h :: (g in t.current <==> g in s.current) && (g in t.previous <==> g in s.previous))
    && (forall g | g != h && g in s.current :: t.current[g] == s.current[g])
    && (forall g | g != h && g in s.previous :: t.previous[g] == s.previous[g])
  }

  lemma AddTextElsewhere(s: Tracker, h: Header, x: Option<InfoText>, frameTime: real, fadeOut: real)
    requires Ready(s) && h in s.current
    ensures var t := AddText(s, h, x, frameTime, fadeOut);
            SameElsewhere(s, t, h) && t.lastModel == s.lastModel && t.current.Keys == s.current.Keys
  {
  }

  /** One call on the list of a model is one call against its list of the last frame, or the empty list. */
  lemma AddTextIs(s: Tracker, h: Header, ent: int, texts: seq<InfoText>, o: Info, x: Option<InfoText>,
                  frameTime: real, fadeOut: real)
    requires Ready(s) && Showing(s, h, ent, texts) && Prior(s, h, o) && o.Valid()
    ensures var t := AddText(s, h, x, frameTime, fadeOut);
            && Showing(t, h, ent, texts + Added(x, Some(o), frameTime, fadeOut))
            && Prior(t, h, Advanced(x, o, frameTime))
  {
    NoOldList(x, frameTime, fadeOut);
  }

  lemma CallRuns(s: Tracker, h: Header, ent: int, list: seq<InfoText>, xs: seq<Call>, i: nat, j: nat)
    requires Ready(s) && j == i + 1 <= |xs| && Running(s, h, ent, list, xs, i)
    ensures Running(AddText(s, h, Some(xs[i].text), xs[i].frameTime, xs[i].fadeOut), h, ent, list, xs, j)
  {
    DuringNext(list, xs, i, During(list, xs, i), During(list, xs, j));
    AddTextIs(s, h, ent, During(list, xs, i).texts, During(list, xs, i).prev, Some(xs[i].text),
              xs[i].frameTime, xs[i].fadeOut);
  }

  /** The state after the first n layers of model h. */
  ghost function AfterLayers(s: Tracker, h: Header, layers: seq<Layer>, n: nat, frameTime: real, fadeOut: real)
    : (t: Tracker)
    requires Inv(s) && n <= |layers|
    ensures Inv(t)
  {
    if n == 0 then s
    else
      var t := AfterLayers(s, h, layers, n - 1, frameTime, fadeOut);
      ApplyKeeps(t, Accumulate(h, true, layers[n - 1], frameTime, fadeOut));
      Apply(t, Accumulate(h, true, layers[n - 1], frameTime, fadeOut))
  }

  lemma LayerRuns(s: Tracker, h: Header, ent: int, list: seq<InfoText>, layers: seq<Layer>, i: nat, j: nat,
                  frameTime: real, fadeOut: real, xs: seq<Call>)
    requires Inv(s) && j == i + 1 <= |layers| && xs == CallsFor(layers, frameTime, fadeOut)
    requires Running(s, h, ent, list, xs, i) && IsShown(s, ent)
    ensures var t := Apply(s, Accumulate(h, true, layers[i], frameTime, fadeOut));
            Running(t, h, ent, list, xs, j) && SameElsewhere(s, t, h) && t.lastModel == s.lastModel
  {
    hide CallsFor, During;
    ActivityCarries(list, layers, i, frameTime, fadeOut);
    CallRuns(s, h, ent, list, xs, i, j);
    AddTextElsewhere(s, h, Some(xs[i].text), frameTime, fadeOut);
    CallTimes(layers, i, frameTime, fadeOut, xs);
  }

  lemma CallTimes(layers: seq<Layer>, i: nat, frameTime: real, fadeOut: real, xs: seq<Call>)
    requires i < |layers| && xs == CallsFor(layers, frameTime, fadeOut)
    ensures xs[i].frameTime == frameTime && xs[i].fadeOut == fadeOut
  {
  }

  lemma {:induction false} LayersRun(s: Tracker, h: Header, ent: int, list: seq<InfoText>, layers: seq<Layer>, n: nat,
                                     frameTime: real, fadeOut: real, xs: seq<Call>)
    requires Inv(s) && n <= |layers| && xs == CallsFor(layers, frameTime, fadeOut)
    requires Running(s, h, ent, list, xs, 0) && IsShown(s, ent)
    ensures var t := AfterLayers(s, h, layers, n, frameTime, fadeOut);
            Running(t, h, ent, list, xs, n) && SameElsewhere(s, t, h) && t.lastModel == s.lastModel
  {
    hide Running, Inv, CallsFor, Apply;
    if n == 0 {
    } else {
      var j := n - 1;
      LayersRun(s, h, ent, list, layers, j, frameTime, fadeOut, xs);
      LayerRuns(AfterLayers(s, h, layers, j, frameTime, fadeOut), h, ent, list, layers, j, n, frameTime, fadeOut, xs);
    }
  }

  /** Going on to another model closes this one: its list is its merge. */
  lemma SwitchMerges(s: Tracker, h: Header, ent: int, list: seq<InfoText>, xs: seq<Call>, g: Header, closing: real)
    requires Inv(s) && Running(s, h, ent, list, xs, |xs|) && s.lastModel == Some(h) && g != h
    ensures var t := Switch(s, g, closing);
            && Showing(t, h, ent, Merged(list, Frame(xs, closing))) && SameElsewhere(s, t, h)
            && t.lastModel == Some(g) && t.current.Keys == s.current.Keys
  {
    hide Merged, During, Inv;
    var m := During(list, xs, |xs|);
    ReadyIfInv(s);
    FrameMerges(list, Frame(xs, closing));
    AddTextIs(s, h, ent, m.texts, m.prev, None, closing, 0.0);
    AddTextElsewhere(s, h, None, closing, 0.0);
  }

  lemma ReadyIfInv(s: Tracker)
    requires Inv(s)
    ensures Ready(s)
  {
  }

  // ----- all models during a frame -----

  ghost predicate AllShown(s: Tracker, cast: Cast) {
    forall i | 0 <= i < |cast.ents| :: IsShown(s, cast.ents[i])
  }

  function FrameFor(tick: Tick, j: nat, closing: real): Frame
    requires j < |tick.layers|
  {
    Frame(CallsFor(tick.layers[j], tick.frameTime, tick.fadeOut), closing)
  }

  /** A frame has begun with its first model, and the lists of the last frame are lists. */
  ghost predicate Begun(s: Tracker, cast: Cast, lists: seq<seq<InfoText>>)
    requires ValidCast(cast) && |lists| == |cast.headers|
  {
    && s.lastModel == Some(cast.headers[0]) && AllShown(s, cast) && Showing(s, cast.headers[0], cast.ents[0], [])
    && (forall m | 0 < m < |lists| :: cast.headers[m] !in s.current)
    && forall m | 0 <= m < |lists| :: Prior(s, cast.headers[m], Info(0, lists[m]))
  }

  /** The models before j are closed, model j is through n of its layers, and those after j have not begun. */
  ghost predicate Through(s: Tracker, cast: Cast, lists: seq<seq<InfoText>>, tick: Tick, j: nat, n: nat)
    requires ValidCast(cast) && |lists| == |tick.layers| == |cast.headers| && j < |lists| && n <= |tick.layers[j]|
  {
    && s.lastModel == Some(cast.headers[j]) && AllShown(s, cast)
    && Running(s, cast.headers[j], cast.ents[j], lists[j], CallsFor(tick.layers[j], tick.frameTime, tick.fadeOut), n)
    && (forall m | 0 <= m < j ::
          Showing(s, cast.headers[m], cast.ents[m], Merged(lists[m], FrameFor(tick, m, tick.frameTime))))
    && (forall m | j < m < |lists| :: cast.headers[m] !in s.current)
    && forall m | j < m < |lists| :: Prior(s, cast.headers[m], Info(0, lists[m]))
  }

  /** The state after the layers of the models up to j. */
  ghost function AfterModels(s: Tracker, cast: Cast, tick: Tick, j: nat): (t: Tracker)
    requires Inv(s) && ValidCast(cast) && |tick.layers| == |cast.headers| && j < |cast.headers|
    ensures Inv(t)
  {
    if j == 0 then AfterLayers(s, cast.headers[0], tick.layers[0], |tick.layers[0]|, tick.frameTime, tick.fadeOut)
    else
      var op := Start(cast.headers[j], true, cast.ents[j], tick.frameTime);
      var t := AfterModels(s, cast, tick, j - 1);
      ApplyKeeps(t, op);
      AfterLayers(Apply(t, op), cast.headers[j], tick.layers[j], |tick.layers[j]|, tick.frameTime, tick.fadeOut)
  }

  lemma LayersThrough(s: Tracker, cast: Cast, lists: seq<seq<InfoText>>, tick: Tick, j: nat)
    requires Inv(s) && ValidCast(cast) && |lists| == |tick.layers| == |cast.headers| && j < |lists|
    requires Through(s, cast, lists, tick, j, 0)
    ensures Through(AfterLayers(s, cast.headers[j], tick.layers[j], |tick.layers[j]|, tick.frameTime, tick.fadeOut),
                    cast, lists, tick, j, |tick.layers[j]|)
  {
    hide Merged, CallsFor, Inv, Running, FrameFor;
    var layers := tick.layers[j];
    var xs := CallsFor(layers, tick.frameTime, tick.fadeOut);
    LayersRun(s, cast.headers[j], cast.ents[j], lists[j], layers, |layers|, tick.frameTime, tick.fadeOut, xs);
  }

  lemma FirstThrough(s: Tracker, cast: Cast, lists: seq<seq<InfoText>>, tick: Tick)
    requires Inv(s) && ValidCast(cast) && |lists| == |tick.layers| == |cast.headers| && Begun(s, cast, lists)
    ensures Through(AfterModels(s, cast, tick, 0), cast, lists, tick, 0, |tick.layers[0]|)
  {
    hide Merged, CallsFor, Inv;
    LayersThrough(s, cast, lists, tick, 0);
  }

  /** The models before j are closed and the others have not begun. */
  ghost predicate Between(s: Tracker, cast: Cast, lists: seq<seq<InfoText>>, tick: Tick, j: nat)
    requires ValidCast(cast) && |lists| == |tick.layers| == |cast.headers| && j <= |lists|
  {
    && AllShown(s, cast)
    && (forall m | 0 <= m < j ::
          Showing(s, cast.headers[m], cast.ents[m], Merged(lists[m], FrameFor(tick, m, tick.frameTime))))
    && (forall m | j <= m < |lists| :: cast.headers[m] !in s.current)
    && forall m | j <= m < |lists| :: Prior(s, cast.headers[m], Info(0, lists[m]))
  }

  lemma SwitchIsBetween(s: Tracker, t: Tracker, cast: Cast, lists: seq<seq<InfoText>>, tick: Tick, i: nat, j: nat)
    requires ValidCast(cast) && |lists| == |tick.layers| == |cast.headers| && j == i + 1 <= |lists|
    requires Through(s, cast, lists, tick, i, |tick.layers[i]|) && SameElsewhere(s, t, cast.headers[i])
    requires Showing(t, cast.headers[i], cast.ents[i], Merged(lists[i], FrameFor(tick, i, tick.frameTime)))
    ensures Between(t, cast, lists, tick, j)
  {
    hide Merged, FrameFor, Running;
  }

  lemma EnterIsThrough(t: Tracker, cast: Cast, lists: seq<seq<InfoText>>, tick: Tick, j: nat)
    requires ValidCast(cast) && |lists| == |tick.layers| == |cast.headers| && j < |lists|
    requires Between(t, cast, lists, tick, j) && t.lastModel == Some(cast.headers[j])
    ensures Through(Enter(t, cast.headers[j], cast.ents[j]), cast, lists, tick, j, 0)
  {
    hide Merged, FrameFor, CallsFor;
  }

  /** Beginning the next model closes the one before and touches no other. */
  lemma NextBegins(s: Tracker, cast: Cast, lists: seq<seq<InfoText>>, tick: Tick, i: nat, j: nat)
    requires Inv(s) && ValidCast(cast) && |lists| == |tick.layers| == |cast.headers| && j == i + 1 < |lists|
    requires Through(s, cast, lists, tick, i, |tick.layers[i]|)
    ensures Ready(s)
    ensures Through(Apply(s, Start(cast.headers[j], true, cast.ents[j], tick.frameTime)), cast, lists, tick, j, 0)
  {
    hide Merged, CallsFor, Inv, Showing, SameElsewhere, Running, Switch, Enter, Prior;
    var xs, g := CallsFor(tick.layers[i], tick.frameTime, tick.fadeOut), cast.headers[j];
    ReadyIfInv(s);
    SwitchMerges(s, cast.headers[i], cast.ents[i], lists[i], xs, g, tick.frameTime);
    SwitchIsBetween(s, Switch(s, g, tick.frameTime), cast, lists, tick, i, j);
    EnterIsThrough(Switch(s, g, tick.frameTime), cast, lists, tick, j);
  }

  lemma {:induction false} ModelsThrough(s: Tracker, cast: Cast, lists: seq<seq<InfoText>>, tick: Tick, j: nat)
    requires Inv(s) && ValidCast(cast) && |lists| == |tick.layers| == |cast.headers| && j < |lists|
    requires Begun(s, cast, lists)
    ensures Through(AfterModels(s, cast, tick, j), cast, lists, tick, j, |tick.layers[j]|)
  {
    hide Merged, CallsFor, Inv, Running, Switch, Through, Begun, Apply, AfterLayers;
    if j == 0 {
      FirstThrough(s, cast, lists, tick);
    } else {
      var i := j - 1;
      ModelsThrough(s, cast, lists, tick, i);
      var op, t := Start(cast.headers[j], true, cast.ents[j], tick.frameTime), AfterModels(s, cast, tick, i);
      ApplyKeeps(t, op);
      NextBegins(t, cast, lists, tick, i, j);
      LayersThrough(Apply(t, op), cast, lists, tick, j);
    }
  }

  // ----- frame after frame -----

  function Merges(lists: seq<seq<InfoText>>, tick: Tick, closing: real): (next: seq<seq<InfoText>>)
    requires |lists| == |tick.layers|
    ensures |next| == |lists|
  {
    seq(|lists|, j requires 0 <= j < |lists| =>
      Merged(lists[j], FrameFor(tick, j, if j == |lists| - 1 then closing else tick.frameTime)))
  }

  /** Coming back to the first model closes the last, at the frame time of the new frame, and every model's list is now
      its own merge. */
  lemma NextFrameBegins(s: Tracker, cast: Cast, lists: seq<seq<InfoText>>, tick: Tick, j: nat, closing: real)
    requires Inv(s) && ValidCast(cast) && |lists| == |tick.layers| == |cast.headers| && j == |lists| - 1
    requires Through(s, cast, lists, tick, j, |tick.layers[j]|)
    ensures Ready(s)
    ensures var t := Apply(s, Start(cast.headers[0], true, cast.ents[0], closing));
            Begun(t, cast, Merges(lists, tick, closing))
            && forall m | 0 <= m < |lists| :: cast.headers[m] in t.previous
  {
    hide Merged, CallsFor, Inv;
    var xs := CallsFor(tick.layers[j], tick.frameTime, tick.fadeOut);
    ReadyIfInv(s);
    SwitchMerges(s, cast.headers[j], cast.ents[j], lists[j], xs, cast.headers[0], closing);
    var t := Switch(s, cast.headers[0], closing);
    forall m | 0 <= m < |lists|
      ensures Showing(t, cast.headers[m], cast.ents[m], Merges(lists, tick, closing)[m])
    {
    }
  }

  ghost predicate ValidRun(cast: Cast, ticks: seq<Tick>) {
    ValidCast(cast) && |ticks| >= 1 && forall k | 0 <= k < |ticks| :: |ticks[k].layers| == |cast.headers|
  }

  /** The state when frame k has begun with its first model. */
  ghost function AtFrame(cast: Cast, ticks: seq<Tick>, k: nat): (s: Tracker)
    requires ValidRun(cast, ticks) && k < |ticks|
    ensures Inv(s)
  {
    var op := Start(cast.headers[0], true, cast.ents[0], ticks[k].frameTime);
    var s := if k == 0 then Initial()
             else AfterModels(AtFrame(cast, ticks, k - 1), cast, ticks[k - 1], |cast.headers| - 1);
    ApplyKeeps(s, op);
    Apply(s, op)
  }

  /** The frames of model j: the last model is closed at the frame time of the next frame, the others at their own. */
  function FramesOf(cast: Cast, ticks: seq<Tick>, j: nat): (frames: seq<Frame>)
    requires |ticks| >= 1 && forall k | 0 <= k < |ticks| :: j < |ticks[k].layers|
    ensures |frames| == |ticks| - 1
  {
    seq(|ticks| - 1, k requires 0 <= k < |ticks| - 1 =>
      FrameFor(ticks[k], j, ticks[if j == |cast.headers| - 1 then k + 1 else k].frameTime))
  }

  /** What the lists of the last frame must be when frame k has begun. */
  ghost function ListsAt(cast: Cast, ticks: seq<Tick>, k: nat): (lists: seq<seq<InfoText>>)
    requires ValidRun(cast, ticks) && k < |ticks|
    ensures |lists| == |cast.headers|
  {
    seq(|cast.headers|, j requires 0 <= j < |cast.headers| => ListAfter([], FramesOf(cast, ticks, j), k))
  }

  lemma ListsNext(cast: Cast, ticks: seq<Tick>, i: nat, k: nat)
    requires ValidRun(cast, ticks) && k == i + 1 < |ticks|
    ensures ListsAt(cast, ticks, k) == Merges(ListsAt(cast, ticks, i), ticks[i], ticks[k].frameTime)
  {
    hide Merged;
  }

  lemma FirstBegun(cast: Cast, ticks: seq<Tick>, k: nat)
    requires ValidRun(cast, ticks) && k == 0
    ensures Begun(AtFrame(cast, ticks, k), cast, ListsAt(cast, ticks, k))
  {
    hide Merged;
  }

  lemma FrameNext(cast: Cast, ticks: seq<Tick>, i: nat, k: nat, j: nat)
    requires ValidRun(cast, ticks) && k == i + 1 < |ticks| && j == |cast.headers| - 1
    ensures Ready(AfterModels(AtFrame(cast, ticks, i), cast, ticks[i], j))
    ensures AtFrame(cast, ticks, k)
         == Apply(AfterModels(AtFrame(cast, ticks, i), cast, ticks[i], j),
                  Start(cast.headers[0], true, cast.ents[0], ticks[k].frameTime))
  {
    hide Apply, AfterModels;
  }

  lemma {:induction false} EachFrameBegins(cast: Cast, ticks: seq<Tick>, k: nat)
    requires ValidRun(cast, ticks) && k < |ticks|
    ensures Begun(AtFrame(cast, ticks, k), cast, ListsAt(cast, ticks, k))
    ensures k > 0 ==> forall j | 0 <= j < |cast.headers| :: cast.headers[j] in AtFrame(cast, ticks, k).previous
  {
    hide AtFrame, Begun, Through, Apply, AfterModels, Inv, ListsAt, Merges;
    if k == 0 {
      FirstBegun(cast, ticks, k);
    } else {
      var i, j := k - 1, |cast.headers| - 1;
      var lists := ListsAt(cast, ticks, i);
      var s := AtFrame(cast, ticks, i);
      EachFrameBegins(cast, ticks, i);
      ModelsThrough(s, cast, lists, ticks[i], j);
      NextFrameBegins(AfterModels(s, cast, ticks[i], j), cast, lists, ticks[i], j, ticks[k].frameTime);
      ListsNext(cast, ticks, i, k);
      FrameNext(cast, ticks, i, k, j);
    }
  }

  /** In every run that blends the same shown models, two or more, once each in every frame in a fixed order, whatever
      their layers: when a frame begins, every model's list of the last frame is what its own merges made of nothing. */
  lemma EachModelMergesAlone(cast: Cast, ticks: seq<Tick>, k: nat, j: nat)
    requires ValidRun(cast, ticks) && 0 < k < |ticks| && j < |cast.headers|
    ensures cast.headers[j] in AtFrame(cast, ticks, k).previous
    ensures AtFrame(cast, ticks, k).previous[cast.headers[j]].info
         == Info(0, ListAfter([], FramesOf(cast, ticks, j), k))
  {
    hide AtFrame, ListAfter, FramesOf;
    EachFrameBegins(cast, ticks, k);
    assert Prior(AtFrame(cast, ticks, k), cast.headers[j], Info(0, ListsAt(cast, ticks, k)[j]));
  }

  lemma ReturnCloses(s: Tracker, cast: Cast, lists: seq<seq<InfoText>>, tick: Tick, j: nat, closing: real)
    requires Inv(s) && ValidCast(cast) && |lists| == |tick.layers| == |cast.headers| && j == |lists| - 1
    requires Through(s, cast, lists, tick, j, |tick.layers[j]|)
    ensures Ready(s) && AllClosed(Switch(s, cast.headers[0], closing))
    ensures var t := Apply(s, Start(cast.headers[0], true, cast.ents[0], closing));
            forall g | g in t.previous :: t.previous[g].info.cursor == 0
  {
    hide Merged, CallsFor, Running, FrameFor, Inv;
    ReadyIfInv(s);
    SwitchCloses(s, cast.headers[0], closing);
    assert cast.headers[0] != cast.headers[j];
    assert Showing(s, cast.headers[0], cast.ents[0], Merged(lists[0], FrameFor(tick, 0, tick.frameTime)));
  }

  /** In such a run every swap finds every model closed, and leaves every cursor of the old lists at 0. */
  lemma EverySwapFindsAllClosed(cast: Cast, ticks: seq<Tick>, i: nat, k: nat, j: nat)
    requires ValidRun(cast, ticks) && k == i + 1 < |ticks| && j == |cast.headers| - 1
    ensures var s := AfterModels(AtFrame(cast, ticks, i), cast, ticks[i], j);
            && AllClosed(Switch(s, cast.headers[0], ticks[k].frameTime))
            && forall g | g in AtFrame(cast, ticks, k).previous :: AtFrame(cast, ticks, k).previous[g].info.cursor == 0
  {
    hide AtFrame, Begun, Through, Apply, AfterModels, Inv, ListsAt;
    var lists := ListsAt(cast, ticks, i);
    var s := AtFrame(cast, ticks, i);
    EachFrameBegins(cast, ticks, i);
    ModelsThrough(s, cast, lists, ticks[i], j);
    ReturnCloses(AfterModels(s, cast, ticks[i], j), cast, lists, ticks[i], j, ticks[k].frameTime);
    FrameNext(cast, ticks, i, k, j);
  }

  // ----- the age of a layer that is there in every frame -----

  /** The frame times after the first frame and before frame k. */
  function Elapsed(ticks: seq<Tick>, k: nat): real
    requires 1 <= k <= |ticks|
  {
    if k == 1 then 0.0 else Elapsed(ticks, k - 1) + ticks[k - 1].frameTime
  }

  lemma {:induction false} ElapsedIsTimeSince(cast: Cast, ticks: seq<Tick>, j: nat, i: nat, k: nat)
    requires ValidRun(cast, ticks) && 1 <= k < |ticks| && j < |cast.headers|
    requires forall m | 0 <= m < |ticks| :: i < |ticks[m].layers[j]|
    ensures TimeSince(FramesOf(cast, ticks, j), k, i) == Elapsed(ticks, k)
  {
    if k == 1 {
    } else {
      ElapsedIsTimeSince(cast, ticks, j, i, k - 1);
    }
  }

  function KeysOf(layers: seq<Layer>): (keys: seq<Key>)
    ensures |keys| == |layers|
  {
    seq(|layers|, i requires 0 <= i < |layers| =>
      KeyOf(Described(layers[i]).(activity := Carried(layers, i))))
  }

  lemma SteadyFrames(cast: Cast, ticks: seq<Tick>, j: nat, layers: seq<Layer>)
    requires ValidRun(cast, ticks) && j < |cast.headers| && forall k | 0 <= k < |ticks| :: ticks[k].layers[j] == layers
    ensures Steady(FramesOf(cast, ticks, j), KeysOf(layers))
  {
  }

  lemma FirstEntered(frame: Frame, i: nat)
    requires i < |frame.calls|
    ensures Entered([], frame.calls, i).timeAlive == frame.calls[i].text.timeAlive
  {
  }

  /** While a model keeps its layers, each of them is as old as the time since the first frame, in every such run. */
  lemma LayersAge(cast: Cast, ticks: seq<Tick>, k: nat, j: nat, i: nat, layers: seq<Layer>)
    requires ValidRun(cast, ticks) && 0 < k < |ticks| && j < |cast.headers| && i < |layers|
    requires forall m | 0 <= m < |ticks| :: ticks[m].layers[j] == layers
    ensures cast.headers[j] in AtFrame(cast, ticks, k).previous
    ensures var live := Collect(AtFrame(cast, ticks, k).previous[cast.headers[j]].info.texts, Live);
            |live| == |layers| && live[i].timeAlive == Elapsed(ticks, k)
  {
    var frames := FramesOf(cast, ticks, j);
    assert frames[0].calls[i].text.timeAlive == 0.0;
    hide *;
    EachModelMergesAlone(cast, ticks, k, j);
    SteadyFrames(cast, ticks, j, layers);
    SteadyAges([], frames, KeysOf(layers), k, i);
    FirstEntered(frames[0], i);
    ElapsedIsTimeSince(cast, ticks, j, i, k);
  }

  // ----- how long a layer that is gone is shown -----

  function TimesFrom(ticks: seq<Tick>, k: nat, n: nat): (ds: seq<real>)
    requires k + n <= |ticks|
    ensures |ds| == n
  {
    seq(n, m requires 0 <= m < n => ticks[k + m].frameTime)
  }

  /** The frame whose time model j is closed at: the last model's closing call is made in the next frame. */
  function ClosingTick(cast: Cast, k: nat, j: nat): nat {
    if j == |cast.headers| - 1 then k + 1 else k
  }

  lemma FramesCalledAt(cast: Cast, ticks: seq<Tick>, k: nat, n: nat, j: nat)
    requires ValidRun(cast, ticks) && k + n < |ticks| && j < |cast.headers|
    requires forall m | k <= m <= k + n :: ticks[m].frameTime >= 0.0
    ensures forall m | 0 <= m < n ::
              && CalledAt(FramesOf(cast, ticks, j)[k..][m], TimesFrom(ticks, k, n)[m])
              && TimesFrom(ticks, k, n)[m] >= 0.0
              && FramesOf(cast, ticks, j)[k..][m].closing == ticks[ClosingTick(cast, k + m, j)].frameTime >= 0.0
  {
    forall m | 0 <= m < n
      ensures CalledAt(FramesOf(cast, ticks, j)[k..][m], TimesFrom(ticks, k, n)[m])
      ensures TimesFrom(ticks, k, n)[m] >= 0.0
      ensures FramesOf(cast, ticks, j)[k..][m].closing == ticks[ClosingTick(cast, k + m, j)].frameTime >= 0.0
    {
      assert FramesOf(cast, ticks, j)[k..][m] == FramesOf(cast, ticks, j)[k + m];
      assert ticks[k + m].frameTime >= 0.0 && ticks[k + m + 1].frameTime >= 0.0;
    }
  }

  /** The time layer p of model j, or what it leaves, is dealt with in frame m: that of the frame, but for a layer of
      the last model that the calls have not reached that of the next frame. */
  ghost predicate DealtWithIn(cast: Cast, ticks: seq<Tick>, j: nat, m: nat, list: seq<InfoText>, p: nat, time: real)
    requires ValidRun(cast, ticks) && m + 1 < |ticks| && j < |cast.headers| && p < |list|
  {
    var xs := FramesOf(cast, ticks, j)[m].calls;
    time == ticks[if p < Cursor(list, xs, |xs|) then m else ClosingTick(cast, m, j)].frameTime
  }

  lemma FadeTimesAre(cast: Cast, ticks: seq<Tick>, k: nat, n: nat, j: nat, p: nat, list: seq<InfoText>, ds: seq<real>,
                     fs: seq<real>, frames: seq<Frame>, m: nat)
    requires ValidRun(cast, ticks) && k + n < |ticks| && j < |cast.headers| && m < n && p < |list|
    requires frames == FramesOf(cast, ticks, j)[k..] && ds == TimesFrom(ticks, k, n)
    requires fs == FadeTimes(list, frames, n, p, ds) && Fate(list, frames, m, p).Some?
    ensures DealtWithIn(cast, ticks, j, k + m, ListAfter(list, frames, m), Fate(list, frames, m, p).value, fs[m])
  {
    hide Fate, ListAfter, Cursor;
    assert frames[m] == FramesOf(cast, ticks, j)[k + m];
  }

  /** In every such run, a layer of any model that is not found again in frame k is among the model's layers n frames
      later exactly if the times at which it was dealt with since add up to its time to live at most. */
  lemma LayersFade(cast: Cast, ticks: seq<Tick>, k: nat, n: nat, j: nat, p: nat, list: seq<InfoText>,
                   frames: seq<Frame>, fs: seq<real>)
    requires ValidRun(cast, ticks) && 0 < k && 0 < n && k + n < |ticks| && j < |cast.headers|
    requires list == ListAfter([], FramesOf(cast, ticks, j), k) && p < |list|
    requires frames == FramesOf(cast, ticks, j)[k..] && Handled(list, frames[0], p).Over?
    requires fs == FadeTimes(list, frames, n, p, TimesFrom(ticks, k, n))
    requires forall m | k <= m <= k + n :: ticks[m].frameTime >= 0.0
    ensures cast.headers[j] in AtFrame(cast, ticks, k).previous
            && AtFrame(cast, ticks, k).previous[cast.headers[j]].info.texts == list
    ensures forall m | 0 <= m < n && Fate(list, frames, m, p).Some? ::
              DealtWithIn(cast, ticks, j, k + m, ListAfter(list, frames, m), Fate(list, frames, m, p).value, fs[m])
    ensures var fate := Fate(list, frames, n, p);
            && (fate.Some? <==> Total(fs, n) <= list[p].timeToLive)
            && cast.headers[j] in AtFrame(cast, ticks, k + n).previous
            && var texts := AtFrame(cast, ticks, k + n).previous[cast.headers[j]].info.texts;
               fate.Some? ==> fate.value < |texts| && texts[fate.value] == Faded(list[p], Total(fs, n))
  {
    hide AtFrame, Fate, Handled, ListAfter, FramesOf, Faded, Total, TimesFrom, FadeTimes, DealtWithIn, CalledAt;
    EachModelMergesAlone(cast, ticks, k, j);
    EachModelMergesAlone(cast, ticks, k + n, j);
    ListAfterMore([], FramesOf(cast, ticks, j), k, n);
    FramesCalledAt(cast, ticks, k, n, j);
    LifetimeByPlace(list, frames, n, p, TimesFrom(ticks, k, n), fs);
    forall m | 0 <= m < n && Fate(list, frames, m, p).Some?
      ensures DealtWithIn(cast, ticks, j, k + m, ListAfter(list, frames, m), Fate(list, frames, m, p).value, fs[m])
    {
      FadeTimesAre(cast, ticks, k, n, j, p, list, TimesFrom(ticks, k, n), fs, frames, m);
    }
  }

  lemma FramesAtOneTime(cast: Cast, ticks: seq<Tick>, k: nat, n: nat, j: nat)
    requires ValidRun(cast, ticks) && k + n < |ticks| && j < |cast.headers| - 1
    ensures forall m | 0 <= m < n :: AtOneTime(FramesOf(cast, ticks, j)[k..][m], TimesFrom(ticks, k, n)[m])
  {
  }

  /** For a model that is not blended last those times are the frame times since, whatever the places. */
  lemma FadeTimesAreFrameTimes(cast: Cast, ticks: seq<Tick>, k: nat, n: nat, j: nat, p: nat, list: seq<InfoText>,
                               frames: seq<Frame>, ds: seq<real>)
    requires ValidRun(cast, ticks) && 0 < n && k + n < |ticks| && j < |cast.headers| - 1 && p < |list|
    requires frames == FramesOf(cast, ticks, j)[k..] && Handled(list, frames[0], p).Over?
    requires ds == TimesFrom(ticks, k, n) && forall m | 0 <= m < n :: ds[m] >= 0.0
    ensures Fate(list, frames, n, p).Some? <==> Total(ds, n) <= list[p].timeToLive
  {
    hide Fate, Handled, ListAfter, FramesOf, Total, TimesFrom;
    FramesAtOneTime(cast, ticks, k, n, j);
    GhostLifetime(list, frames, n, p, ds);
  }

  lemma CalledTimeToLive(cast: Cast, ticks: seq<Tick>, k: nat, j: nat, p: nat, list: seq<InfoText>)
    requires ValidRun(cast, ticks) && 0 < k < |ticks| && j < |cast.headers|
    requires list == ListAfter([], FramesOf(cast, ticks, j), k) && p < |list| && list[p].thisFrame
    ensures list[p].timeToLive == ticks[k - 1].fadeOut
  {
    hide Merged;
    var frames := FramesOf(cast, ticks, j);
    var i := LiveTimeToLive(ListAfter([], frames, k - 1), frames[k - 1], p);
  }

  /** In every such run, a layer called in frame k - 1 and not found again in frame k is still listed n frames later
      exactly if the times at which it was dealt with since add up to the fade-out time of frame k - 1 at most. */
  lemma CalledLayersFade(cast: Cast, ticks: seq<Tick>, k: nat, n: nat, j: nat, p: nat, list: seq<InfoText>,
                         frames: seq<Frame>, fs: seq<real>)
    requires ValidRun(cast, ticks) && 0 < k && 0 < n && k + n < |ticks| && j < |cast.headers|
    requires list == ListAfter([], FramesOf(cast, ticks, j), k) && p < |list| && list[p].thisFrame
    requires frames == FramesOf(cast, ticks, j)[k..] && Handled(list, frames[0], p).Over?
    requires fs == FadeTimes(list, frames, n, p, TimesFrom(ticks, k, n))
    requires forall m | k <= m <= k + n :: ticks[m].frameTime >= 0.0
    ensures Fate(list, frames, n, p).Some? <==> Total(fs, n) <= ticks[k - 1].fadeOut
  {
    hide AtFrame, Fate, Handled, ListAfter, FramesOf, Faded, Total, TimesFrom, FadeTimes, DealtWithIn;
    LayersFade(cast, ticks, k, n, j, p, list, frames, fs);
    CalledTimeToLive(cast, ticks, k, j, p, list);
  }
}
