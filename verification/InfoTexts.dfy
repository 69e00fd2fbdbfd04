/** One model's list of layer descriptions in the pose debugger, and what one call does to it. */
module InfoTexts {
  import opened Collections

  /** A layer description: seen this frame or last, how long it may still be shown and how long it has been, what it
      is about (activity number, activity name, label), and how many lines it shows after its first. */
  datatype InfoText = InfoText(thisFrame: bool, lastFrame: bool, timeToLive: real, timeAlive: real,
                               number: int, activity: string, title: string, lines: nat)

  /** What layers are compared by. */
  datatype Key = Key(activity: string, title: string, number: int)

  function Lower(c: char): char {
    if 'A' <= c <= 'Z' then (c as int + 32) as char else c
  }

  /** Names are compared without regard to case. */
  function Folded(s: string): string {
    seq(|s|, i requires 0 <= i < |s| => Lower(s[i]))
  }

  function KeyOf(t: InfoText): Key {
    Key(Folded(t.activity), Folded(t.title), t.number)
  }

  /** t was seen in its frame and is about the same layer as x. */
  predicate Matches(t: InfoText, x: InfoText) {
    t.thisFrame && KeyOf(t) == KeyOf(x)
  }

  /** The same letter, or the two cases of one ASCII letter. */
  predicate SameLetter(c: char, d: char) {
    c == d || ('A' <= c <= 'Z' && d as int == c as int + 32) || ('A' <= d <= 'Z' && c as int == d as int + 32)
  }

  predicate SameName(s: string, t: string) {
    |s| == |t| && forall i | 0 <= i < |s| :: SameLetter(s[i], t[i])
  }

  lemma LowerSame(c: char, d: char)
    ensures Lower(c) == Lower(d) <==> SameLetter(c, d)
  {
  }

  lemma FoldedSame(s: string, t: string)
    ensures Folded(s) == Folded(t) <==> SameName(s, t)
  {
    hide Lower, SameLetter;
    forall i | 0 <= i < |s| && i < |t|
      ensures Folded(s)[i] == Folded(t)[i] <==> SameLetter(s[i], t[i])
    {
      LowerSame(s[i], t[i]);
    }
    assert Folded(s) == Folded(t) ==> |Folded(s)| == |Folded(t)|;
  }

  /** What a match compares: the number, and activity name and label letter by letter without regard to case. */
  lemma MatchesMeans(t: InfoText, x: InfoText)
    ensures Matches(t, x)
       <==> t.thisFrame && t.number == x.number && SameName(t.activity, x.activity) && SameName(t.title, x.title)
  {
    hide Folded, SameName;
    FoldedSame(t.activity, x.activity);
    FoldedSame(t.title, x.title);
  }

  /** The first match for x from k on, or the end of the list. */
  function Find(ts: seq<InfoText>, k: nat, x: InfoText): (j: nat)
    requires k <= |ts|
    ensures k <= j <= |ts| && forall p | k <= p < j :: !Matches(ts[p], x)
    ensures j < |ts| ==> Matches(ts[j], x)
    decreases |ts| - k
  {
    if k == |ts| || Matches(ts[k], x) then k else Find(ts, k + 1, x)
  }

  /** Only the part of the list from k on matters. */
  lemma FindDepends(ts: seq<InfoText>, us: seq<InfoText>, k: nat, x: InfoText)
    requires |us| == |ts| && k <= |ts| && us[k..] == ts[k..]
    ensures Find(us, k, x) == Find(ts, k, x)
  {
    assert forall p | k <= p < |ts| :: us[p] == us[k..][p - k] && ts[p] == ts[k..][p - k];
  }

  /** A layer that was not seen again: one frame closer to its removal. */
  function Finish(t: InfoText, frameTime: real): InfoText {
    t.(thisFrame := false, lastFrame := t.thisFrame || t.lastFrame,
       timeToLive := t.timeToLive - frameTime, timeAlive := t.timeAlive + frameTime)
  }

  /** What is kept of a finished layer. */
  function Survivor(t: InfoText, frameTime: real): seq<InfoText> {
    if t.timeToLive >= frameTime then [Finish(t, frameTime)] else []
  }

  function Surviving(frameTime: real): InfoText -> seq<InfoText> {
    t => Survivor(t, frameTime)
  }

  /** A layer as it enters the list, new or found again as t. */
  function Entering(x: InfoText, fadeOut: real): InfoText {
    x.(thisFrame := true, lastFrame := false, timeToLive := fadeOut)
  }

  function Continuing(x: InfoText, t: InfoText, frameTime: real, fadeOut: real): InfoText {
    x.(thisFrame := true, lastFrame := true, timeToLive := fadeOut, timeAlive := t.timeAlive + frameTime)
  }

  /** The entries from a to b finished, the others as they were. */
  function FinishRange(ts: seq<InfoText>, a: nat, b: nat, frameTime: real): (us: seq<InfoText>)
    requires a <= b <= |ts|
    ensures |us| == |ts|
  {
    seq(|ts|, p requires 0 <= p < |ts| => if a <= p < b then Finish(ts[p], frameTime) else ts[p])
  }

  lemma FinishOneMore(ts: seq<InfoText>, a: nat, b: nat, frameTime: real, t: InfoText)
    requires a <= b < |ts| && t == Finish(ts[b], frameTime)
    ensures FinishRange(ts, a, b, frameTime)[b := t] == FinishRange(ts, a, b + 1, frameTime)
  {
  }

  /** One model's list and the place reached in it. */
  datatype Info = Info(cursor: nat, texts: seq<InfoText>) {
    predicate Valid() {
      cursor <= |texts|
    }

    predicate AtEnd() {
      cursor == |texts|
    }
  }

  /** How far a call for x, or the closing call, gets in the list of the last frame. */
  function Target(x: Option<InfoText>, prev: Info): (k: nat)
    requires prev.Valid()
    ensures prev.cursor <= k <= |prev.texts|
  {
    if x.None? then |prev.texts| else Find(prev.texts, prev.cursor, x.value)
  }

  /** A layer not found again in the old list finishes nothing and leaves the place there as it was. */
  predicate Missed(x: Option<InfoText>, prev: Info)
    requires prev.Valid()
  {
    x.Some? && Target(x, prev) == |prev.texts|
  }

  /** What a call does to the list of the last frame. */
  function Advanced(x: Option<InfoText>, prev: Info, frameTime: real): (o: Info)
    requires prev.Valid()
    ensures o.Valid()
  {
    var k := Target(x, prev);
    if Missed(x, prev) then prev
    else Info(if x.None? then k else k + 1, FinishRange(prev.texts, prev.cursor, k, frameTime))
  }

  /** What a call appends to the list of this frame. */
  function Added(x: Option<InfoText>, prev: Option<Info>, frameTime: real, fadeOut: real): seq<InfoText>
    requires prev.Some? ==> prev.value.Valid()
  {
    if prev.None? then
      if x.None? then [] else [Entering(x.value, fadeOut)]
    else
      var o := prev.value;
      var k := Target(x, o);
      if Missed(x, o) then [Entering(x.value, fadeOut)]
      else
        var kept := Collect(o.texts[o.cursor..k], Surviving(frameTime));
        if x.None? then kept else kept + [Continuing(x.value, o.texts[k], frameTime, fadeOut)]
  }

  /** How many lines the entries from k on take. */
  function LinesFrom(ts: seq<InfoText>, k: nat): nat
    requires k <= |ts|
    decreases |ts| - k
  {
    if k == |ts| then 0 else 1 + ts[k].lines + LinesFrom(ts, k + 1)
  }

  /** An entry takes one line and its further lines. */
  lemma {:induction false} LinesOfOneMore(ts: seq<InfoText>, t: InfoText, k: nat)
    requires k <= |ts|
    ensures LinesFrom(ts + [t], |ts| + 1) == 0 && LinesFrom(ts + [t], k) == LinesFrom(ts, k) + 1 + t.lines
    decreases |ts| - k
  {
    if k == |ts| {
    } else {
      LinesOfOneMore(ts, t, k + 1);
    }
  }

  /** The list object of one model. */
  class ModelPoseDebugInfo {
    const entNum: int
    var currentText: nat
    var arrTxt: seq<InfoText>

    predicate Valid()
      reads this
    {
      currentText <= |arrTxt|
    }

    function View(): Info
      reads this
    {
      Info(currentText, arrTxt)
    }

    constructor (ent: int)
      ensures entNum == ent && View() == Info(0, [])
    {
      entNum := ent;
      currentText := 0;
      arrTxt := [];
    }

    /** Adds the layer x, or closes the frame, against the list of the last frame. */
    method AddInfoText(x: Option<InfoText>, pOld: ModelPoseDebugInfo?, frameTime: real, fadeOut: real)
      requires Valid() && pOld != this && (pOld != null ==> pOld.Valid())
      modifies this`arrTxt, pOld
      ensures arrTxt == old(arrTxt)
                        + Added(x, if pOld == null then None else Some(old(pOld.View())), frameTime, fadeOut)
      ensures pOld != null ==> pOld.View() == Advanced(x, old(pOld.View()), frameTime)
      ensures Valid() && (pOld != null ==> pOld.Valid())
    {
      var y := x;
      if x.Some? {
        y := Some(x.value.(lastFrame := false, thisFrame := true));
      }
      if pOld != null {
        var o := pOld;
        var k := o.currentText;
        if x.Some? {
          while k < |o.arrTxt| && !Matches(o.arrTxt[k], x.value)
            invariant o.currentText <= k <= |o.arrTxt|
            invariant Find(o.arrTxt, k, x.value) == Find(o.arrTxt, o.currentText, x.value)
          {
            k := k + 1;
          }
          if k < |o.arrTxt| {
            y := Some(y.value.(timeAlive := o.arrTxt[k].timeAlive));
          }
        } else {
          k := |o.arrTxt|;
        }
        var first, last := o.currentText, k;
        if k == |o.arrTxt| {
          if x.None? {
            o.currentText := k;
          } else {
            last := first;
          }
        } else {
          o.currentText := k + 1;
          if x.Some? {
            y := Some(y.value.(lastFrame := true, timeAlive := y.value.timeAlive + frameTime));
          }
        }
        FinishTexts(o, first, last, frameTime);
      }
      if x.Some? {
        arrTxt := arrTxt + [y.value.(timeToLive := fadeOut)];
      }
    }

    /** The loop over the layers that were not seen again. */
    method FinishTexts(o: ModelPoseDebugInfo, first: nat, last: nat, frameTime: real)
      requires o != this && first <= last <= |o.arrTxt|
      modifies this`arrTxt, o`arrTxt
      ensures o.arrTxt == FinishRange(old(o.arrTxt), first, last, frameTime)
      ensures arrTxt == old(arrTxt) + Collect(old(o.arrTxt)[first..last], Surviving(frameTime))
    {
      ghost var ts := o.arrTxt;
      for p := first to last
        invariant o.arrTxt == FinishRange(ts, first, p, frameTime)
        invariant arrTxt == old(arrTxt) + Collect(ts[first..p], Surviving(frameTime))
      {
        var finished := o.arrTxt[p];
        if finished.thisFrame {
          finished := finished.(lastFrame := true);
        }
        finished := finished.(thisFrame := false);
        finished := finished.(timeToLive := finished.timeToLive - frameTime,
                              timeAlive := finished.timeAlive + frameTime);
        o.arrTxt := o.arrTxt[p := finished];
        if finished.timeToLive >= 0.0 {
          arrTxt := arrTxt + [finished];
        }
        FinishOneMore(ts, first, p, frameTime, finished);
        CollectSlice(ts, first, p, Surviving(frameTime));
      }
    }

    /** The entry that a call for x would find again. */
    method LookupInfoText(x: Option<InfoText>) returns (found: Option<nat>)
      requires Valid()
      ensures x.None? ==> found.None?
      ensures x.Some? ==> found == var k := Find(arrTxt, currentText, x.value); if k < |arrTxt| then Some(k) else None
    {
      var k := currentText;
      if x.Some? {
        while k < |arrTxt|
          invariant currentText <= k <= |arrTxt|
          invariant Find(arrTxt, k, x.value) == Find(arrTxt, currentText, x.value)
        {
          if Matches(arrTxt[k], x.value) {
            return Some(k);
          }
          k := k + 1;
        }
      }
      return None;
    }

    /** Shows the entries not shown yet and moves past them. */
    method PrintPendingInfoText(rnPosPrint: int) returns (pos: int)
      requires Valid()
      modifies this`currentText
      ensures currentText == |arrTxt| && pos == rnPosPrint + LinesFrom(arrTxt, old(currentText))
    {
      pos := rnPosPrint;
      for k := currentText to |arrTxt|
        invariant pos + LinesFrom(arrTxt, k) == rnPosPrint + LinesFrom(arrTxt, currentText)
      {
        pos := pos + 1;
        for line := 0 to arrTxt[k].lines
          invariant pos + arrTxt[k].lines - line + LinesFrom(arrTxt, k + 1)
                 == rnPosPrint + LinesFrom(arrTxt, currentText)
        {
          pos := pos + 1;
        }
      }
      currentText := |arrTxt|;
    }
  }
}
