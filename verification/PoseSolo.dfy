/** Runs of the pose debugger over a single model, which is restarted again and again and never closed. */
module PoseSolo {
  import opened Collections
  import opened InfoTexts
  import opened FrameMerge
  import opened PoseTracker
  import opened PoseFrames

  /** One of the first n calls finds the last entry again. */
  ghost predicate LastFound(ts: seq<InfoText>, xs: seq<Call>, n: nat)
    requires n <= |xs|
  {
    exists i :: 0 <= i < n && Hit(ts, xs, i) == |ts| - 1
  }

  lemma NoneFound(ts: seq<InfoText>, xs: seq<Call>, n: nat)
    requires n == 0
    ensures Cursor(ts, xs, n) == 0 && !LastFound(ts, xs, n)
  {
  }

  lemma LastFoundNext(ts: seq<InfoText>, xs: seq<Call>, j: nat, n: nat)
    requires n == j + 1 <= |xs|
    ensures LastFound(ts, xs, n) <==> LastFound(ts, xs, j) || Hit(ts, xs, j) == |ts| - 1
  {
    hide Hit;
  }

  lemma EndNext(ts: seq<InfoText>, xs: seq<Call>, j: nat, n: nat)
    requires n == j + 1 <= |xs|
    ensures Cursor(ts, xs, n) == |ts| <==> Cursor(ts, xs, j) == |ts| || Hit(ts, xs, j) == |ts| - 1
  {
    hide Find;
  }

  /** The calls reach the end of the old list exactly if it is empty or its last entry is found again. */
  lemma {:induction false} ReachesEnd(ts: seq<InfoText>, xs: seq<Call>, n: nat)
    requires n <= |xs|
    ensures Cursor(ts, xs, n) == |ts| <==> ts == [] || LastFound(ts, xs, n)
  {
    hide Cursor, Hit, LastFound;
    if n == 0 {
      NoneFound(ts, xs, n);
    } else {
      var j := n - 1;
      ReachesEnd(ts, xs, j);
      EndNext(ts, xs, j, n);
      LastFoundNext(ts, xs, j, n);
    }
  }

  /** Restarting the model left open finds it closed exactly if its old list was empty or its last entry was found
      again by one of its calls: the exact condition of a swap that loses nothing. */
  lemma RestartFindsClosed(s: Tracker, h: Header, ent: int, list: seq<InfoText>, xs: seq<Call>, d: real)
    requires Inv(s) && Running(s, h, ent, list, xs, |xs|) && s.lastModel == Some(h)
    ensures Switch(s, h, d) == s
    ensures AllClosed(s) <==> list == [] || LastFound(list, xs, |xs|)
  {
    CallsReach(list, xs, |xs|);
    ReachesEnd(list, xs, |xs|);
    SwitchCloses(s, h, d);
  }

  /** A frame of the only model has begun, and its list of the last frame is list. */
  ghost predicate SoloBegun(s: Tracker, h: Header, ent: int, list: seq<InfoText>) {
    && s.lastModel == Some(h) && IsShown(s, ent) && Showing(s, h, ent, []) && Prior(s, h, Info(0, list))
  }

  /** The state when frame k of a run with a single model has begun. */
  ghost function AtSoloFrame(h: Header, ent: int, ticks: seq<Tick>, k: nat): (s: Tracker)
    requires k < |ticks| && forall m | 0 <= m < |ticks| :: |ticks[m].layers| == 1
    ensures Inv(s)
  {
    var op := Start(h, true, ent, ticks[k].frameTime);
    var s := if k == 0 then Initial()
             else
               var tick := ticks[k - 1];
               AfterLayers(AtSoloFrame(h, ent, ticks, k - 1), h, tick.layers[0], |tick.layers[0]|, tick.frameTime,
                           tick.fadeOut);
    ApplyKeeps(s, op);
    Apply(s, op)
  }

  /** The list after n frames that are never closed: what the calls have dealt with, and no more. */
  function UnclosedList(ticks: seq<Tick>, n: nat): seq<InfoText>
    requires n <= |ticks| && forall m | 0 <= m < |ticks| :: |ticks[m].layers| == 1
  {
    if n == 0 then []
    else
      var xs := CallsFor(ticks[n - 1].layers[0], ticks[n - 1].frameTime, ticks[n - 1].fadeOut);
      During(UnclosedList(ticks, n - 1), xs, |xs|).texts
  }

  lemma SoloRestarts(s: Tracker, h: Header, ent: int, texts: seq<InfoText>, d: real)
    requires Ready(s) && s.lastModel == Some(h) && IsShown(s, ent) && Showing(s, h, ent, texts)
    ensures SoloBegun(Apply(s, Start(h, true, ent, d)), h, ent, texts)
    ensures h in Apply(s, Start(h, true, ent, d)).previous
  {
  }

  lemma SoloFrame(s: Tracker, h: Header, ent: int, list: seq<InfoText>, layers: seq<Layer>, d: real, fadeOut: real,
                  next: real, xs: seq<Call>)
    requires Inv(s) && SoloBegun(s, h, ent, list) && xs == CallsFor(layers, d, fadeOut)
    ensures Ready(AfterLayers(s, h, layers, |layers|, d, fadeOut))
    ensures var t := Apply(AfterLayers(s, h, layers, |layers|, d, fadeOut), Start(h, true, ent, next));
            SoloBegun(t, h, ent, During(list, xs, |xs|).texts) && h in t.previous
  {
    hide CallsFor, Apply, AfterLayers, Inv, Prior;
    assert Running(s, h, ent, list, xs, 0);
    LayersRun(s, h, ent, list, layers, |layers|, d, fadeOut, xs);
    var t := AfterLayers(s, h, layers, |layers|, d, fadeOut);
    ReadyIfInv(t);
    SoloRestarts(t, h, ent, During(list, xs, |xs|).texts, next);
  }

  /** In every run over a single shown model, with any layers, no frame is ever closed: its list of the last frame holds
      what the calls dealt with, and the old entries after the last one found again are lost at once. */
  lemma {:induction false} SoloNeverCloses(h: Header, ent: int, ticks: seq<Tick>, k: nat)
    requires k < |ticks| && 0 <= ent < MAX_EDICTS && forall m | 0 <= m < |ticks| :: |ticks[m].layers| == 1
    ensures SoloBegun(AtSoloFrame(h, ent, ticks, k), h, ent, UnclosedList(ticks, k))
    ensures k > 0 ==> h in AtSoloFrame(h, ent, ticks, k).previous
  {
    hide SoloBegun, AfterLayers, Apply, CallsFor, Inv;
    if k == 0 {
      SoloStarts(h, ent, ticks, k);
    } else {
      var tick := ticks[k - 1];
      SoloNeverCloses(h, ent, ticks, k - 1);
      SoloFrame(AtSoloFrame(h, ent, ticks, k - 1), h, ent, UnclosedList(ticks, k - 1), tick.layers[0], tick.frameTime,
                tick.fadeOut, ticks[k].frameTime, CallsFor(tick.layers[0], tick.frameTime, tick.fadeOut));
    }
  }

  lemma SoloStarts(h: Header, ent: int, ticks: seq<Tick>, k: nat)
    requires k == 0 < |ticks| && 0 <= ent < MAX_EDICTS && forall m | 0 <= m < |ticks| :: |ticks[m].layers| == 1
    ensures SoloBegun(AtSoloFrame(h, ent, ticks, k), h, ent, UnclosedList(ticks, k))
  {
  }
}
