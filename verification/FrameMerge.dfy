/** One frame of one model's list: what its calls, one after another, make of the list of the last frame. */
module FrameMerge {
  import opened Collections
  import opened InfoTexts

  datatype Call = Call(text: InfoText, frameTime: real, fadeOut: real)

  /** The calls of a frame, and the frame time when the model is closed. */
  datatype Frame = Frame(calls: seq<Call>, closing: real)

  // ----- the frame call by call -----

  datatype Merging = Merging(prev: Info, texts: seq<InfoText>)

  function Step(m: Merging, x: Option<InfoText>, frameTime: real, fadeOut: real): (n: Merging)
    requires m.prev.Valid()
    ensures n.prev.Valid()
  {
    Merging(Advanced(x, m.prev, frameTime), m.texts + Added(x, Some(m.prev), frameTime, fadeOut))
  }

  /** After i calls against the list ts. */
  function During(ts: seq<InfoText>, xs: seq<Call>, i: nat): (m: Merging)
    requires i <= |xs|
    ensures m.prev.Valid()
  {
    if i == 0 then Merging(Info(0, ts), [])
    else Step(During(ts, xs, i - 1), Some(xs[i - 1].text), xs[i - 1].frameTime, xs[i - 1].fadeOut)
  }

  /** After the closing call too. */
  function Closed(ts: seq<InfoText>, frame: Frame): (m: Merging)
    ensures m.prev.Valid()
  {
    Step(During(ts, frame.calls, |frame.calls|), None, frame.closing, 0.0)
  }

  // ----- the frame as a merge -----

  /** What becomes of the calls and of the entries of the old list: a call is new or finds an entry again, and an
      entry not found again is over, at some frame time. */
  datatype Event = New(call: nat) | Again(call: nat, entry: nat) | Over(entry: nat, time: real)

  /** The place reached in the old list after i calls. */
  function Cursor(ts: seq<InfoText>, xs: seq<Call>, i: nat): (c: nat)
    requires i <= |xs|
    ensures c <= |ts|
  {
    if i == 0 then 0
    else
      var c := Cursor(ts, xs, i - 1);
      var k := Find(ts, c, xs[i - 1].text);
      if k == |ts| then c else k + 1
  }

  /** The entry that call i finds again, or the end of the list. */
  function Hit(ts: seq<InfoText>, xs: seq<Call>, i: nat): (k: nat)
    requires i < |xs|
    ensures Cursor(ts, xs, i) <= k <= |ts|
  {
    Find(ts, Cursor(ts, xs, i), xs[i].text)
  }

  function OverFrom(a: nat, b: nat, time: real): (es: seq<Event>)
    requires a <= b
    ensures |es| == b - a
  {
    seq(b - a, i requires 0 <= i => Over(a + i, time))
  }

  function CallEvents(ts: seq<InfoText>, xs: seq<Call>, i: nat): seq<Event>
    requires i < |xs|
  {
    var k := Hit(ts, xs, i);
    if k == |ts| then [New(i)] else OverFrom(Cursor(ts, xs, i), k, xs[i].frameTime) + [Again(i, k)]
  }

  function Events(ts: seq<InfoText>, xs: seq<Call>, i: nat): seq<Event>
    requires i <= |xs|
  {
    if i == 0 then [] else Events(ts, xs, i - 1) + CallEvents(ts, xs, i - 1)
  }

  function FrameEvents(ts: seq<InfoText>, frame: Frame): seq<Event> {
    var n := |frame.calls|;
    Events(ts, frame.calls, n) + OverFrom(Cursor(ts, frame.calls, n), |ts|, frame.closing)
  }

  /** What an event leaves in the list of this frame. */
  function Entry(ts: seq<InfoText>, xs: seq<Call>, e: Event): seq<InfoText> {
    match e
    case New(i) => if i < |xs| then [Entering(xs[i].text, xs[i].fadeOut)] else []
    case Again(i, k) =>
      if i < |xs| && k < |ts| then [Continuing(xs[i].text, ts[k], xs[i].frameTime, xs[i].fadeOut)] else []
    case Over(k, time) => if k < |ts| then Survivor(ts[k], time) else []
  }

  function Entries(ts: seq<InfoText>, xs: seq<Call>): Event -> seq<InfoText> {
    e => Entry(ts, xs, e)
  }

  /** The list of this frame: the events of the merge in order. */
  function Merged(ts: seq<InfoText>, frame: Frame): seq<InfoText> {
    Collect(FrameEvents(ts, frame), Entries(ts, frame.calls))
  }

  // ----- the calls perform the merge -----

  lemma {:induction false} OverEntries(ts: seq<InfoText>, us: seq<InfoText>, xs: seq<Call>, a: nat, b: nat, time: real)
    requires a <= b <= |ts| == |us| && us[a..] == ts[a..]
    ensures Collect(OverFrom(a, b, time), Entries(ts, xs)) == Collect(us[a..b], Surviving(time))
  {
    if a == b {
    } else {
      OverEntries(ts, us, xs, a, b - 1, time);
      assert OverFrom(a, b, time) == OverFrom(a, b - 1, time) + [Over(b - 1, time)];
      CollectOne(OverFrom(a, b - 1, time), Over(b - 1, time), Entries(ts, xs));
      CollectSlice(us, a, b - 1, Surviving(time));
      assert us[b - 1] == us[a..][b - 1 - a] == ts[a..][b - 1 - a];
    }
  }

  /** After i calls the place in the old list is the merge's and the entries from there on are untouched. */
  ghost predicate Reached(ts: seq<InfoText>, xs: seq<Call>, i: nat, prev: Info)
    requires i <= |xs|
  {
    prev.cursor == Cursor(ts, xs, i) && |prev.texts| == |ts| && prev.texts[prev.cursor..] == ts[prev.cursor..]
  }

  lemma SuffixOf<T>(s: seq<T>, t: seq<T>, c: nat, k: nat)
    requires c <= k <= |s| == |t| && t[c..] == s[c..]
    ensures t[k..] == s[k..] && (k < |s| ==> t[k] == s[k])
  {
    assert t[k..] == t[c..][k - c..] && s[k..] == s[c..][k - c..];
    assert k < |s| ==> t[k] == t[k..][0] && s[k] == s[k..][0];
  }

  lemma FinishedSuffix(us: seq<InfoText>, a: nat, b: nat, k: nat, time: real)
    requires a <= b <= k <= |us|
    ensures FinishRange(us, a, b, time)[k..] == us[k..]
  {
  }

  lemma StillReached(ts: seq<InfoText>, xs: seq<Call>, i: nat, prev: Info)
    requires i < |xs| && Reached(ts, xs, i, prev)
    ensures Target(Some(xs[i].text), prev) == Hit(ts, xs, i)
    ensures Reached(ts, xs, i + 1, Advanced(Some(xs[i].text), prev, xs[i].frameTime))
  {
    var c, k := prev.cursor, Hit(ts, xs, i);
    FindDepends(ts, prev.texts, c, xs[i].text);
    if k < |ts| {
      SuffixOf(ts, prev.texts, c, k + 1);
      FinishedSuffix(prev.texts, c, k, k + 1, xs[i].frameTime);
    }
  }

  /** What call i adds to the new list is what its events leave there. */
  lemma CallAdds(ts: seq<InfoText>, xs: seq<Call>, i: nat, prev: Info)
    requires i < |xs| && Reached(ts, xs, i, prev) && Target(Some(xs[i].text), prev) == Hit(ts, xs, i)
    ensures Added(Some(xs[i].text), Some(prev), xs[i].frameTime, xs[i].fadeOut)
         == Collect(CallEvents(ts, xs, i), Entries(ts, xs))
  {
    var x, c, k, f := xs[i], prev.cursor, Hit(ts, xs, i), Entries(ts, xs);
    if k == |ts| {
      CollectSingle(New(i), f);
    } else {
      CollectOne(OverFrom(c, k, x.frameTime), Again(i, k), f);
      OverEntries(ts, prev.texts, xs, c, k, x.frameTime);
      SuffixOf(ts, prev.texts, c, k);
    }
  }

  lemma DuringNext(ts: seq<InfoText>, xs: seq<Call>, i: nat, m: Merging, n: Merging)
    requires i < |xs| && m == During(ts, xs, i) && n == During(ts, xs, i + 1)
    ensures n.prev == Advanced(Some(xs[i].text), m.prev, xs[i].frameTime)
    ensures n.texts == m.texts + Added(Some(xs[i].text), Some(m.prev), xs[i].frameTime, xs[i].fadeOut)
  {
  }

  lemma {:induction false} CallsReach(ts: seq<InfoText>, xs: seq<Call>, i: nat)
    requires i <= |xs|
    ensures Reached(ts, xs, i, During(ts, xs, i).prev)
  {
    if i == 0 {
    } else {
      var j := i - 1;
      CallsReach(ts, xs, j);
      StillReached(ts, xs, j, During(ts, xs, j).prev);
      DuringNext(ts, xs, j, During(ts, xs, j), During(ts, xs, i));
    }
  }

  lemma OneCallMerges(ts: seq<InfoText>, xs: seq<Call>, i: nat, prev: Info, texts: seq<InfoText>)
    requires i < |xs| && Reached(ts, xs, i, prev)
    requires texts == Collect(Events(ts, xs, i), Entries(ts, xs))
    ensures texts + Added(Some(xs[i].text), Some(prev), xs[i].frameTime, xs[i].fadeOut)
         == Collect(Events(ts, xs, i + 1), Entries(ts, xs))
  {
    StillReached(ts, xs, i, prev);
    CallAdds(ts, xs, i, prev);
    CollectAppend(Events(ts, xs, i), CallEvents(ts, xs, i), Entries(ts, xs));
  }

  /** The calls perform the merge: the new list is what the events so far leave. */
  lemma {:induction false} CallsMerge(ts: seq<InfoText>, xs: seq<Call>, i: nat)
    requires i <= |xs|
    ensures During(ts, xs, i).texts == Collect(Events(ts, xs, i), Entries(ts, xs))
  {
    if i == 0 {
    } else {
      var j := i - 1;
      CallsMerge(ts, xs, j);
      CallsReach(ts, xs, j);
      OneCallMerges(ts, xs, j, During(ts, xs, j).prev, During(ts, xs, j).texts);
      DuringNext(ts, xs, j, During(ts, xs, j), During(ts, xs, i));
    }
  }

  /** So do the calls and the closing call, after which the place is the end of the old list. */
  lemma FrameMerges(ts: seq<InfoText>, frame: Frame)
    ensures Closed(ts, frame).texts == Merged(ts, frame) && Closed(ts, frame).prev.AtEnd()
  {
    var xs, n := frame.calls, |frame.calls|;
    var prev := During(ts, xs, n).prev;
    CallsMerge(ts, xs, n);
    CallsReach(ts, xs, n);
    OverEntries(ts, prev.texts, xs, prev.cursor, |ts|, frame.closing);
    CollectAppend(Events(ts, xs, n), OverFrom(prev.cursor, |ts|, frame.closing), Entries(ts, xs));
  }

  // ----- every entry and every call once, in order -----

  function EntryOf(e: Event): seq<nat> {
    if e.New? then [] else [e.entry]
  }

  function CallOf(e: Event): seq<nat> {
    if e.Over? then [] else [e.call]
  }

  lemma {:induction false} OverInOrder(a: nat, b: nat, time: real)
    requires a <= b
    ensures Collect(OverFrom(a, b, time), EntryOf) == Range(a, b)
    ensures Collect(OverFrom(a, b, time), CallOf) == []
  {
    if a == b {
    } else {
      var init := OverFrom(a, b - 1, time);
      OverInOrder(a, b - 1, time);
      assert OverFrom(a, b, time) == init + [Over(b - 1, time)];
      CollectOne(init, Over(b - 1, time), EntryOf);
      CollectOne(init, Over(b - 1, time), CallOf);
    }
  }

  lemma Joined(es: seq<Event>, ds: seq<Event>, a: nat, b: nat, c: nat, f: Event -> seq<nat>)
    requires a <= b <= c && Collect(es, f) == Range(a, b) && Collect(ds, f) == Range(b, c)
    ensures Collect(es + ds, f) == Range(a, c)
  {
    CollectAppend(es, ds, f);
    RangesJoin(a, b, c);
  }

  lemma EventsNext(ts: seq<InfoText>, xs: seq<Call>, i: nat, es: seq<Event>, ds: seq<Event>)
    requires i < |xs| && es == Events(ts, xs, i) && ds == Events(ts, xs, i + 1)
    ensures ds == es + CallEvents(ts, xs, i)
  {
  }

  lemma {:induction false} EventsInOrder(ts: seq<InfoText>, xs: seq<Call>, i: nat)
    requires i <= |xs|
    ensures Collect(Events(ts, xs, i), EntryOf) == Range(0, Cursor(ts, xs, i))
    ensures Collect(Events(ts, xs, i), CallOf) == Range(0, i)
  {
    if i == 0 {
    } else {
      var j := i - 1;
      EventsInOrder(ts, xs, j);
      CallInOrder(ts, xs, j);
      EventsNext(ts, xs, j, Events(ts, xs, j), Events(ts, xs, i));
      Joined(Events(ts, xs, j), CallEvents(ts, xs, j), 0, Cursor(ts, xs, j), Cursor(ts, xs, i), EntryOf);
      Joined(Events(ts, xs, j), CallEvents(ts, xs, j), 0, j, i, CallOf);
    }
  }

  lemma CallInOrder(ts: seq<InfoText>, xs: seq<Call>, i: nat)
    requires i < |xs|
    ensures Collect(CallEvents(ts, xs, i), EntryOf) == Range(Cursor(ts, xs, i), Cursor(ts, xs, i + 1))
    ensures Collect(CallEvents(ts, xs, i), CallOf) == Range(i, i + 1)
  {
    var c, k := Cursor(ts, xs, i), Hit(ts, xs, i);
    if k == |ts| {
      CollectSingle(New(i), EntryOf);
      CollectSingle(New(i), CallOf);
    } else {
      var over := OverFrom(c, k, xs[i].frameTime);
      OverInOrder(c, k, xs[i].frameTime);
      CollectOne(over, Again(i, k), EntryOf);
      CollectOne(over, Again(i, k), CallOf);
    }
  }

  /** A frame deals with every old entry exactly once, found again or over, in the order of the old list, and with
      every call once, in the order of the calls. */
  lemma FrameInOrder(ts: seq<InfoText>, frame: Frame)
    ensures Collect(FrameEvents(ts, frame), EntryOf) == Range(0, |ts|)
    ensures Collect(FrameEvents(ts, frame), CallOf) == Range(0, |frame.calls|)
  {
    var xs, n := frame.calls, |frame.calls|;
    var c := Cursor(ts, xs, n);
    EventsInOrder(ts, xs, n);
    OverInOrder(c, |ts|, frame.closing);
    Joined(Events(ts, xs, n), OverFrom(c, |ts|, frame.closing), 0, c, |ts|, EntryOf);
    Joined(Events(ts, xs, n), OverFrom(c, |ts|, frame.closing), 0, n, n, CallOf);
  }

  /** Events speak of calls and entries there are; an entry is only found again by a call that matches it. */
  ghost predicate Sound(ts: seq<InfoText>, xs: seq<Call>, e: Event) {
    match e
    case New(i) => i < |xs|
    case Again(i, k) => i < |xs| && k < |ts| && Matches(ts[k], xs[i].text)
    case Over(k, _) => k < |ts|
  }

  lemma {:induction false} EventsSound(ts: seq<InfoText>, xs: seq<Call>, i: nat)
    requires i <= |xs|
    ensures forall e | e in Events(ts, xs, i) :: Sound(ts, xs, e)
  {
    if i == 0 {
    } else {
      var j := i - 1;
      EventsSound(ts, xs, j);
      CallSound(ts, xs, j);
      EventsNext(ts, xs, j, Events(ts, xs, j), Events(ts, xs, i));
      BothSound(ts, xs, Events(ts, xs, j), CallEvents(ts, xs, j));
    }
  }

  lemma BothSound(ts: seq<InfoText>, xs: seq<Call>, es: seq<Event>, ds: seq<Event>)
    requires (forall e | e in es :: Sound(ts, xs, e)) && forall e | e in ds :: Sound(ts, xs, e)
    ensures forall e | e in es + ds :: Sound(ts, xs, e)
  {
  }

  lemma CallSound(ts: seq<InfoText>, xs: seq<Call>, i: nat)
    requires i < |xs|
    ensures forall e | e in CallEvents(ts, xs, i) :: Sound(ts, xs, e)
  {
  }

  lemma FrameSound(ts: seq<InfoText>, frame: Frame)
    ensures forall e | e in FrameEvents(ts, frame) :: Sound(ts, frame.calls, e)
  {
    EventsSound(ts, frame.calls, |frame.calls|);
  }

  /** The old entries that are over and kept. */
  function KeptEntry(ts: seq<InfoText>): Event -> seq<nat> {
    (e: Event) => if e.Over? && e.entry < |ts| && ts[e.entry].timeToLive >= e.time then [e.entry] else []
  }

  lemma EntryLength(ts: seq<InfoText>, xs: seq<Call>, e: Event)
    requires Sound(ts, xs, e)
    ensures |Entry(ts, xs, e)| == |CallOf(e)| + |KeptEntry(ts)(e)|
  {
  }

  /** Conservation: the new list has an entry for each call and one for each old entry that is over and kept. */
  lemma NewLength(ts: seq<InfoText>, frame: Frame)
    ensures |Merged(ts, frame)| == |frame.calls| + |Collect(FrameEvents(ts, frame), KeptEntry(ts))|
  {
    FrameSound(ts, frame);
    FrameInOrder(ts, frame);
    var es := FrameEvents(ts, frame);
    forall i | 0 <= i < |es|
      ensures |Entries(ts, frame.calls)(es[i])| == |CallOf(es[i])| + |KeptEntry(ts)(es[i])|
    {
      assert es[i] in es;
      EntryLength(ts, frame.calls, es[i]);
    }
    CollectLengths(es, Entries(ts, frame.calls), CallOf, KeptEntry(ts), |es|);
  }

  /** At the end of the old list a second closing call changes nothing, and a call finds nothing. */
  lemma NothingLeft(prev: Info, x: Option<InfoText>, frameTime: real, fadeOut: real)
    requires prev.AtEnd()
    ensures Advanced(x, prev, frameTime) == prev
    ensures Added(x, Some(prev), frameTime, fadeOut) == if x.None? then [] else [Entering(x.value, fadeOut)]
  {
    assert FinishRange(prev.texts, prev.cursor, prev.cursor, frameTime) == prev.texts;
  }

  /** What an event does to its entry in the old list itself: one over is finished once, one found again is not
      touched. */
  ghost predicate Ages(ts: seq<InfoText>, us: seq<InfoText>, e: Event)
    requires |us| == |ts|
  {
    e.New? || (e.entry < |ts| && us[e.entry] == if e.Over? then Finish(ts[e.entry], e.time) else ts[e.entry])
  }

  ghost predicate AgedSoFar(ts: seq<InfoText>, us: seq<InfoText>, c: nat, es: seq<Event>)
    requires |us| == |ts|
  {
    forall e | e in es :: Ages(ts, us, e) && (e.New? || e.entry < c)
  }

  lemma OverAges(ts: seq<InfoText>, us: seq<InfoText>, c: nat, k: nat, time: real, es: seq<Event>)
    requires c <= k <= |ts| == |us| && us[c..] == ts[c..] && AgedSoFar(ts, us, c, es)
    ensures AgedSoFar(ts, FinishRange(us, c, k, time), k, es + OverFrom(c, k, time))
  {
    forall p | c <= p < k
      ensures us[p] == ts[p]
    {
      SuffixOf(ts, us, c, p);
    }
  }

  lemma CallAges(ts: seq<InfoText>, xs: seq<Call>, i: nat, prev: Info, es: seq<Event>)
    requires i < |xs| && Reached(ts, xs, i, prev) && AgedSoFar(ts, prev.texts, prev.cursor, es)
    ensures var next := Advanced(Some(xs[i].text), prev, xs[i].frameTime);
            |next.texts| == |ts| && AgedSoFar(ts, next.texts, next.cursor, es + CallEvents(ts, xs, i))
  {
    var c, k := prev.cursor, Hit(ts, xs, i);
    StillReached(ts, xs, i, prev);
    if k < |ts| {
      OverAges(ts, prev.texts, c, k, xs[i].frameTime, es);
      SuffixOf(ts, prev.texts, c, k);
    }
  }

  lemma {:induction false} CallsAge(ts: seq<InfoText>, xs: seq<Call>, i: nat)
    requires i <= |xs|
    ensures var prev := During(ts, xs, i).prev;
            |prev.texts| == |ts| && AgedSoFar(ts, prev.texts, prev.cursor, Events(ts, xs, i))
  {
    if i == 0 {
    } else {
      var j := i - 1;
      CallsAge(ts, xs, j);
      CallsReach(ts, xs, j);
      CallAges(ts, xs, j, During(ts, xs, j).prev, Events(ts, xs, j));
      DuringNext(ts, xs, j, During(ts, xs, j), During(ts, xs, i));
      EventsNext(ts, xs, j, Events(ts, xs, j), Events(ts, xs, i));
    }
  }

  /** Conservation in the old list: each entry not found again has had its time shortened exactly once. */
  lemma FrameAges(ts: seq<InfoText>, frame: Frame)
    ensures var us := Closed(ts, frame).prev.texts;
            |us| == |ts| && forall e | e in FrameEvents(ts, frame) :: Ages(ts, us, e)
  {
    var xs, n := frame.calls, |frame.calls|;
    var prev := During(ts, xs, n).prev;
    CallsAge(ts, xs, n);
    CallsReach(ts, xs, n);
    OverAges(ts, prev.texts, prev.cursor, |ts|, frame.closing, Events(ts, xs, n));
  }

  /** Without an old list a call does what it does against an empty one. */
  lemma NoOldList(x: Option<InfoText>, frameTime: real, fadeOut: real)
    ensures Added(x, None, frameTime, fadeOut) == Added(x, Some(Info(0, [])), frameTime, fadeOut)
    ensures Advanced(x, Info(0, []), frameTime) == Info(0, [])
  {
  }

  // ----- the live entries of the new list -----

  function Live(t: InfoText): seq<InfoText> {
    if t.thisFrame then [t] else []
  }

  /** The entry that call i makes. */
  function Entered(ts: seq<InfoText>, xs: seq<Call>, i: nat): InfoText
    requires i < |xs|
  {
    var k := Hit(ts, xs, i);
    if k == |ts| then Entering(xs[i].text, xs[i].fadeOut)
    else Continuing(xs[i].text, ts[k], xs[i].frameTime, xs[i].fadeOut)
  }

  function EnteredBy(ts: seq<InfoText>, xs: seq<Call>, n: nat): seq<InfoText>
    requires n <= |xs|
  {
    seq(n, i requires 0 <= i < n => Entered(ts, xs, i))
  }

  function LiveEntries(ts: seq<InfoText>, xs: seq<Call>): Event -> seq<InfoText> {
    e => Collect(Entry(ts, xs, e), Live)
  }

  lemma LiveOfOne(t: InfoText)
    ensures Collect([t], Live) == Live(t)
  {
    CollectSingle(t, Live);
  }

  lemma {:induction false} OverNotLive(ts: seq<InfoText>, xs: seq<Call>, a: nat, b: nat, time: real)
    requires a <= b
    ensures Collect(OverFrom(a, b, time), LiveEntries(ts, xs)) == []
  {
    if a == b {
    } else {
      OverNotLive(ts, xs, a, b - 1, time);
      assert OverFrom(a, b, time) == OverFrom(a, b - 1, time) + [Over(b - 1, time)];
      CollectOne(OverFrom(a, b - 1, time), Over(b - 1, time), LiveEntries(ts, xs));
      if b - 1 < |ts| {
        LiveOfOne(Finish(ts[b - 1], time));
      }
    }
  }

  lemma EnteredNext(ts: seq<InfoText>, xs: seq<Call>, i: nat)
    requires i < |xs|
    ensures EnteredBy(ts, xs, i + 1) == EnteredBy(ts, xs, i) + [Entered(ts, xs, i)]
  {
  }

  lemma {:induction false} LiveSoFar(ts: seq<InfoText>, xs: seq<Call>, i: nat)
    requires i <= |xs|
    ensures Collect(Events(ts, xs, i), LiveEntries(ts, xs)) == EnteredBy(ts, xs, i)
  {
    if i == 0 {
    } else {
      var j := i - 1;
      LiveSoFar(ts, xs, j);
      CallLive(ts, xs, j);
      EventsNext(ts, xs, j, Events(ts, xs, j), Events(ts, xs, i));
      CollectAppend(Events(ts, xs, j), CallEvents(ts, xs, j), LiveEntries(ts, xs));
      EnteredNext(ts, xs, j);
    }
  }

  lemma CallLive(ts: seq<InfoText>, xs: seq<Call>, i: nat)
    requires i < |xs|
    ensures Collect(CallEvents(ts, xs, i), LiveEntries(ts, xs)) == [Entered(ts, xs, i)]
  {
    var c, k, f := Cursor(ts, xs, i), Hit(ts, xs, i), LiveEntries(ts, xs);
    LiveOfOne(Entered(ts, xs, i));
    if k == |ts| {
      CollectSingle(New(i), f);
    } else {
      CollectOne(OverFrom(c, k, xs[i].frameTime), Again(i, k), f);
      OverNotLive(ts, xs, c, k, xs[i].frameTime);
    }
  }

  /** The live entries of the list, during a frame and after it, are those of the calls, in the order of the calls. */
  lemma LiveDuring(ts: seq<InfoText>, xs: seq<Call>, i: nat)
    requires i <= |xs|
    ensures Collect(During(ts, xs, i).texts, Live) == EnteredBy(ts, xs, i)
  {
    CallsMerge(ts, xs, i);
    LiveSoFar(ts, xs, i);
    LiveFused(Events(ts, xs, i), ts, xs);
  }

  lemma LiveFused(es: seq<Event>, ts: seq<InfoText>, xs: seq<Call>)
    ensures Collect(Collect(es, Entries(ts, xs)), Live) == Collect(es, LiveEntries(ts, xs))
  {
    CollectTwice(es, Entries(ts, xs), Live, LiveEntries(ts, xs));
  }

  lemma LiveAfter(ts: seq<InfoText>, frame: Frame)
    ensures Collect(Merged(ts, frame), Live) == EnteredBy(ts, frame.calls, |frame.calls|)
  {
    var xs, n := frame.calls, |frame.calls|;
    LiveFused(FrameEvents(ts, frame), ts, xs);
    LiveSoFar(ts, xs, n);
    OverNotLive(ts, xs, Cursor(ts, xs, n), |ts|, frame.closing);
    CollectAppend(Events(ts, xs, n), OverFrom(Cursor(ts, xs, n), |ts|, frame.closing), LiveEntries(ts, xs));
  }

  /** An entry made by a call is live, may be shown for the fade-out time from now on, was seen last frame exactly if it
      was found again, is then as old as the entry found and the frame time, and says what the call says. */
  lemma EnteredIs(ts: seq<InfoText>, xs: seq<Call>, i: nat)
    requires i < |xs|
    ensures var e, x, k := Entered(ts, xs, i), xs[i].text, Hit(ts, xs, i);
            && e.thisFrame && e.timeToLive == xs[i].fadeOut && (e.lastFrame <==> k < |ts|)
            && e.timeAlive == (if k < |ts| then ts[k].timeAlive + xs[i].frameTime else x.timeAlive)
            && e.number == x.number && e.activity == x.activity && e.title == x.title && e.lines == x.lines
  {
  }

  /** So every live entry of a closed frame has the fade-out time of one of its calls to live. */
  lemma LiveTimeToLive(ts: seq<InfoText>, frame: Frame, p: nat) returns (i: nat)
    requires p < |Merged(ts, frame)| && Merged(ts, frame)[p].thisFrame
    ensures i < |frame.calls| && Merged(ts, frame)[p] == Entered(ts, frame.calls, i)
    ensures Merged(ts, frame)[p].timeToLive == frame.calls[i].fadeOut
  {
    hide Merged, Entered, Hit;
    var us := Merged(ts, frame);
    LiveAfter(ts, frame);
    CollectAt(us, Live, p, |us|, 0);
    i := |CollectFirst(us, Live, p)|;
    EnteredIs(ts, frame.calls, i);
  }

  // ----- what the greedy search finds -----

  /** The calls match old entries at the increasing places f. */
  ghost predicate Embeds(ts: seq<InfoText>, xs: seq<Call>, f: seq<nat>) {
    && |f| == |xs|
    && (forall i | 0 <= i < |f| :: f[i] < |ts| && Matches(ts[f[i]], xs[i].text))
    && forall i, j | 0 <= i < j < |f| :: f[i] < f[j]
  }

  ghost predicate AllFound(ts: seq<InfoText>, xs: seq<Call>) {
    forall i | 0 <= i < |xs| :: Hit(ts, xs, i) < |ts|
  }

  /** The search finds places no later than any other choice of places. */
  lemma {:induction false} GreedyIsEarliest(ts: seq<InfoText>, xs: seq<Call>, f: seq<nat>, i: nat)
    requires Embeds(ts, xs, f) && i < |xs|
    ensures Hit(ts, xs, i) <= f[i]
  {
    if i > 0 {
      GreedyIsEarliest(ts, xs, f, i - 1);
      assert Cursor(ts, xs, i) == Hit(ts, xs, i - 1) + 1;
    }
    assert Matches(ts[f[i]], xs[i].text);
  }

  lemma {:induction false} HitsIncrease(ts: seq<InfoText>, xs: seq<Call>, i: nat, j: nat)
    requires AllFound(ts, xs) && i < j < |xs|
    ensures Hit(ts, xs, i) < Hit(ts, xs, j)
  {
    assert Cursor(ts, xs, j) == Hit(ts, xs, j - 1) + 1;
    if i < j - 1 {
      HitsIncrease(ts, xs, i, j - 1);
    }
  }

  /** Every call finds an entry again exactly if the calls are a subsequence of the live entries of the old list. */
  lemma AllFoundIffEmbedded(ts: seq<InfoText>, xs: seq<Call>)
    ensures AllFound(ts, xs) <==> exists f :: Embeds(ts, xs, f)
  {
    if AllFound(ts, xs) {
      var hits := seq(|xs|, i requires 0 <= i < |xs| => Hit(ts, xs, i));
      forall i, j | 0 <= i < j < |hits|
        ensures hits[i] < hits[j]
      {
        HitsIncrease(ts, xs, i, j);
      }
      assert Embeds(ts, xs, hits);
    }
    if f :| Embeds(ts, xs, f) {
      forall i | 0 <= i < |xs|
        ensures Hit(ts, xs, i) < |ts|
      {
        GreedyIsEarliest(ts, xs, f, i);
      }
    }
  }

  /** Looked up just before its call, an entry found again is the one the call continues. */
  lemma LookupFindsIt(ts: seq<InfoText>, xs: seq<Call>, i: nat)
    requires i < |xs|
    ensures var prev := During(ts, xs, i).prev;
            && |prev.texts| == |ts| && Find(prev.texts, prev.cursor, xs[i].text) == Hit(ts, xs, i)
            && (Hit(ts, xs, i) < |ts| ==> prev.texts[Hit(ts, xs, i)] == ts[Hit(ts, xs, i)])
  {
    var prev := During(ts, xs, i).prev;
    CallsReach(ts, xs, i);
    StillReached(ts, xs, i, prev);
    SuffixOf(ts, prev.texts, prev.cursor, Hit(ts, xs, i));
  }

  /** Then each layer goes on from its old age. */
  lemma CompleteMatch(ts: seq<InfoText>, frame: Frame, f: seq<nat>)
    requires Embeds(ts, frame.calls, f)
    ensures var live := Collect(Merged(ts, frame), Live);
            |live| == |frame.calls|
            && forall i | 0 <= i < |live| ::
                 var k := Hit(ts, frame.calls, i);
                 k <= f[i] && live[i].lastFrame
                 && live[i].timeAlive == ts[k].timeAlive + frame.calls[i].frameTime
  {
    hide Merged, Hit;
    LiveAfter(ts, frame);
    forall i | 0 <= i < |frame.calls|
      ensures Hit(ts, frame.calls, i) <= f[i]
    {
      GreedyIsEarliest(ts, frame.calls, f, i);
    }
  }
}
