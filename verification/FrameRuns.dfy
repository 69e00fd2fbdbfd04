/** One model's list over any number of frames: how old its layers get and how long they stay. */
module FrameRuns {
  import opened Collections
  import opened InfoTexts
  import opened FrameMerge

  /** The list after n frames. */
  function ListAfter(ts: seq<InfoText>, frames: seq<Frame>, n: nat): seq<InfoText>
    requires n <= |frames|
  {
    if n == 0 then ts else Merged(ListAfter(ts, frames, n - 1), frames[n - 1])
  }

  lemma {:induction false} ListAfterMore(ts: seq<InfoText>, frames: seq<Frame>, k: nat, n: nat)
    requires k + n <= |frames|
    ensures ListAfter(ts, frames, k + n) == ListAfter(ListAfter(ts, frames, k), frames[k..], n)
  {
    hide Merged;
    if n == 0 {
    } else {
      ListAfterMore(ts, frames, k, n - 1);
      assert frames[k..][n - 1] == frames[k + n - 1];
    }
  }

  // ----- where the entries go -----

  lemma HandledOnce(ts: seq<InfoText>, frame: Frame, p: nat)
    requires p < |ts|
    ensures exists e :: 0 <= e < |FrameEvents(ts, frame)| && EntryOf(FrameEvents(ts, frame)[e]) == [p]
  {
    var es := FrameEvents(ts, frame);
    FrameInOrder(ts, frame);
    var e := CollectSource(es, EntryOf, |es|, p);
    assert Range(0, |ts|)[p] == p;
  }

  /** The event that deals with entry p. */
  ghost function Handling(ts: seq<InfoText>, frame: Frame, p: nat): (e: nat)
    requires p < |ts|
    ensures e < |FrameEvents(ts, frame)| && EntryOf(FrameEvents(ts, frame)[e]) == [p]
  {
    HandledOnce(ts, frame, p);
    var e: nat :| e < |FrameEvents(ts, frame)| && EntryOf(FrameEvents(ts, frame)[e]) == [p];
    e
  }

  ghost function Handled(ts: seq<InfoText>, frame: Frame, p: nat): Event
    requires p < |ts|
  {
    FrameEvents(ts, frame)[Handling(ts, frame, p)]
  }

  /** Something of entry p is in the new list ... */
  ghost predicate Leaves(ts: seq<InfoText>, frame: Frame, p: nat)
    requires p < |ts|
  {
    Entry(ts, frame.calls, Handled(ts, frame, p)) != []
  }

  /** ... at this place. */
  ghost function Place(ts: seq<InfoText>, frame: Frame, p: nat): nat
    requires p < |ts|
  {
    |CollectFirst(FrameEvents(ts, frame), Entries(ts, frame.calls), Handling(ts, frame, p))|
  }

  lemma PlaceHolds(ts: seq<InfoText>, frame: Frame, p: nat)
    requires p < |ts| && Leaves(ts, frame, p)
    ensures Place(ts, frame, p) < |Merged(ts, frame)|
    ensures Entry(ts, frame.calls, Handled(ts, frame, p)) == [Merged(ts, frame)[Place(ts, frame, p)]]
  {
    var es := FrameEvents(ts, frame);
    CollectAt(es, Entries(ts, frame.calls), Handling(ts, frame, p), |es|, 0);
  }

  lemma HandlingIsNumber(ts: seq<InfoText>, frame: Frame, p: nat)
    requires p < |ts|
    ensures |CollectFirst(FrameEvents(ts, frame), EntryOf, Handling(ts, frame, p))| == p
  {
    var es, e := FrameEvents(ts, frame), Handling(ts, frame, p);
    FrameInOrder(ts, frame);
    CollectAt(es, EntryOf, e, |es|, 0);
  }

  /** The merge keeps order: what the old entries leave stands in the order of the old list. */
  lemma OrderKept(ts: seq<InfoText>, frame: Frame, p: nat, q: nat)
    requires p < q < |ts| && Leaves(ts, frame, p) && Leaves(ts, frame, q)
    ensures Place(ts, frame, p) < Place(ts, frame, q)
  {
    var es, f := FrameEvents(ts, frame), Entries(ts, frame.calls);
    var d, e := Handling(ts, frame, p), Handling(ts, frame, q);
    HandlingIsNumber(ts, frame, p);
    HandlingIsNumber(ts, frame, q);
    if e <= d {
      CollectGrows(es, EntryOf, e, d);
    }
    CollectGrows(es, f, d + 1, e);
  }

  /** And it adds nothing else: every entry of the new list is a call's or what one old entry leaves. */
  lemma EveryEntryHasSource(ts: seq<InfoText>, frame: Frame, j: nat) returns (e: nat)
    requires j < |Merged(ts, frame)|
    ensures e < |FrameEvents(ts, frame)| && |CollectFirst(FrameEvents(ts, frame), Entries(ts, frame.calls), e)| == j
    ensures Entry(ts, frame.calls, FrameEvents(ts, frame)[e]) == [Merged(ts, frame)[j]]
  {
    var es := FrameEvents(ts, frame);
    e := CollectSource(es, Entries(ts, frame.calls), |es|, j);
  }

  // ----- how long a layer that is not seen again stays -----

  /** An entry not live is never found again. */
  lemma NeverFoundAgain(ts: seq<InfoText>, frame: Frame, p: nat)
    requires p < |ts| && !ts[p].thisFrame
    ensures Handled(ts, frame, p).Over?
  {
    FrameSound(ts, frame);
    assert Handled(ts, frame, p) in FrameEvents(ts, frame);
    assert Sound(ts, frame.calls, Handled(ts, frame, p));
  }

  /** Where what entry p leaves is after n frames, if anywhere. */
  ghost function Fate(ts: seq<InfoText>, frames: seq<Frame>, n: nat, p: nat): (q: Option<nat>)
    requires n <= |frames| && p < |ts|
    ensures q.Some? ==> q.value < |ListAfter(ts, frames, n)|
  {
    if n == 0 then Some(p)
    else
      var before := Fate(ts, frames, n - 1, p);
      if before.None? || !Leaves(ListAfter(ts, frames, n - 1), frames[n - 1], before.value) then None
      else
        PlaceHolds(ListAfter(ts, frames, n - 1), frames[n - 1], before.value);
        Some(Place(ListAfter(ts, frames, n - 1), frames[n - 1], before.value))
  }

  function Total(ds: seq<real>, n: nat): real
    requires n <= |ds|
  {
    if n == 0 then 0.0 else Total(ds, n - 1) + ds[n - 1]
  }

  /** The frame times at which the descendants of entry p are dealt with, while they are there. */
  ghost predicate DealtWithAt(ts: seq<InfoText>, frames: seq<Frame>, n: nat, p: nat, ds: seq<real>)
    requires n <= |frames| && n <= |ds| && p < |ts|
  {
    forall k | 0 <= k < n && Fate(ts, frames, k, p).Some? ::
      var e := Handled(ListAfter(ts, frames, k), frames[k], Fate(ts, frames, k, p).value);
      e.Over? ==> e.time == ds[k]
  }

  /** t, not seen again for this long. */
  function Faded(t: InfoText, time: real): InfoText {
    t.(thisFrame := false, lastFrame := t.thisFrame || t.lastFrame,
       timeToLive := t.timeToLive - time, timeAlive := t.timeAlive + time)
  }

  ghost predicate InTime(t: InfoText, ds: seq<real>, n: nat)
    requires n <= |ds|
  {
    forall m {:trigger Total(ds, m)} | 1 <= m <= n :: Total(ds, m) <= t.timeToLive
  }

  /** One frame of a layer that is over in it. */
  lemma OneFrameOver(ts: seq<InfoText>, frame: Frame, q: nat, time: real)
    requires q < |ts| && Handled(ts, frame, q) == Over(q, time)
    ensures Leaves(ts, frame, q) <==> time <= ts[q].timeToLive
    ensures Leaves(ts, frame, q) ==> Place(ts, frame, q) < |Merged(ts, frame)|
                                     && Merged(ts, frame)[Place(ts, frame, q)] == Finish(ts[q], time)
  {
    if Leaves(ts, frame, q) {
      PlaceHolds(ts, frame, q);
    }
  }

  lemma FateNext(ts: seq<InfoText>, frames: seq<Frame>, k: nat, n: nat, p: nat, q: nat, list: seq<InfoText>)
    requires n == k + 1 <= |frames| && p < |ts| && list == ListAfter(ts, frames, k)
    requires Fate(ts, frames, k, p) == Some(q)
    ensures ListAfter(ts, frames, n) == Merged(list, frames[k])
    ensures Fate(ts, frames, n, p) == if Leaves(list, frames[k], q) then Some(Place(list, frames[k], q)) else None
  {
    hide Merged, Leaves, Place;
  }

  /** From the second frame on the layer is not live, and from the first it is over in every frame it reaches. */
  lemma OverAgain(ts: seq<InfoText>, frames: seq<Frame>, k: nat, n: nat, p: nat, q: nat, list: seq<InfoText>,
                  ds: seq<real>)
    requires n == k + 1 <= |frames| && n <= |ds| && p < |ts| && DealtWithAt(ts, frames, n, p, ds)
    requires list == ListAfter(ts, frames, k) && Fate(ts, frames, k, p) == Some(q)
    requires !list[q].thisFrame || Handled(list, frames[k], q).Over?
    ensures Handled(list, frames[k], q) == Over(q, ds[k])
  {
    if !list[q].thisFrame {
      NeverFoundAgain(list, frames[k], q);
    }
  }

  lemma FadesFurther(t: InfoText, u: InfoText, a: real, b: real)
    requires u == Faded(t, a) || (u == t && a == 0.0)
    ensures Finish(u, b) == Faded(t, a + b) && (b <= u.timeToLive <==> a + b <= t.timeToLive)
  {
  }

  lemma OneFrameFades(t: InfoText, list: seq<InfoText>, frame: Frame, q: nat, total: real, time: real,
                      fate: Option<nat>, next: seq<InfoText>)
    requires q < |list| && Handled(list, frame, q) == Over(q, time)
    requires list[q] == Faded(t, total) || (list[q] == t && total == 0.0)
    requires next == Merged(list, frame) && fate == if Leaves(list, frame, q) then Some(Place(list, frame, q)) else None
    ensures fate.Some? <==> total + time <= t.timeToLive
    ensures fate.Some? ==> fate.value < |next| && next[fate.value] == Faded(t, total + time)
  {
    OneFrameOver(list, frame, q, time);
    FadesFurther(t, list[q], total, time);
  }

  lemma InTimeNext(t: InfoText, ds: seq<real>, k: nat, n: nat)
    requires n == k + 1 <= |ds|
    ensures Total(ds, n) == Total(ds, k) + ds[k]
    ensures InTime(t, ds, n) <==> InTime(t, ds, k) && Total(ds, n) <= t.timeToLive
  {
  }

  lemma GoneIsGone(ts: seq<InfoText>, frames: seq<Frame>, k: nat, n: nat, p: nat)
    requires n == k + 1 <= |frames| && p < |ts| && Fate(ts, frames, k, p).None?
    ensures Fate(ts, frames, n, p).None?
  {
  }

  /** What Lifetime says of n frames. */
  ghost predicate LivesExactly(ts: seq<InfoText>, frames: seq<Frame>, n: nat, p: nat, ds: seq<real>)
    requires n <= |frames| && n <= |ds| && p < |ts|
  {
    && (Fate(ts, frames, n, p).Some? <==> InTime(ts[p], ds, n))
    && (Fate(ts, frames, n, p).Some? ==>
          ListAfter(ts, frames, n)[Fate(ts, frames, n, p).value] == Faded(ts[p], Total(ds, n)))
  }

  lemma FirstFrame(ts: seq<InfoText>, frames: seq<Frame>, n: nat, p: nat, ds: seq<real>)
    requires n == 1 <= |frames| && n <= |ds| && p < |ts| && DealtWithAt(ts, frames, n, p, ds)
    requires Handled(ts, frames[0], p).Over?
    ensures LivesExactly(ts, frames, n, p, ds)
  {
    var k := n - 1;
    OverAgain(ts, frames, k, n, p, p, ts, ds);
    FateNext(ts, frames, k, n, p, p, ts);
    OneFrameFades(ts[p], ts, frames[k], p, 0.0, ds[k], Fate(ts, frames, n, p), ListAfter(ts, frames, n));
    InTimeNext(ts[p], ds, k, n);
  }

  lemma FadedNotLive(t: InfoText, time: real)
    ensures !Faded(t, time).thisFrame
  {
  }

  lemma LivesOn(ts: seq<InfoText>, frames: seq<Frame>, k: nat, n: nat, p: nat, q: nat, ds: seq<real>)
    requires n == k + 1 <= |frames| && n <= |ds| && p < |ts| && DealtWithAt(ts, frames, n, p, ds)
    requires Fate(ts, frames, k, p) == Some(q) && ListAfter(ts, frames, k)[q] == Faded(ts[p], Total(ds, k))
    ensures var fate := Fate(ts, frames, n, p);
            && (fate.Some? <==> Total(ds, k) + ds[k] <= ts[p].timeToLive)
            && (fate.Some? ==> ListAfter(ts, frames, n)[fate.value] == Faded(ts[p], Total(ds, k) + ds[k]))
  {
    hide *;
    var list := ListAfter(ts, frames, k);
    assert !list[q].thisFrame by {
      FadedNotLive(ts[p], Total(ds, k));
    }
    OverAgain(ts, frames, k, n, p, q, list, ds);
    FateNext(ts, frames, k, n, p, q, list);
    OneFrameFades(ts[p], list, frames[k], q, Total(ds, k), ds[k], Fate(ts, frames, n, p), ListAfter(ts, frames, n));
  }

  lemma DealtWithBefore(ts: seq<InfoText>, frames: seq<Frame>, k: nat, n: nat, p: nat, ds: seq<real>)
    requires k <= n <= |frames| && n <= |ds| && p < |ts| && DealtWithAt(ts, frames, n, p, ds)
    ensures DealtWithAt(ts, frames, k, p, ds)
  {
    hide Fate, ListAfter, Handled;
  }

  lemma NextFrame(ts: seq<InfoText>, frames: seq<Frame>, k: nat, n: nat, p: nat, ds: seq<real>)
    requires n == k + 1 <= |frames| && n <= |ds| && p < |ts| && DealtWithAt(ts, frames, n, p, ds)
    requires LivesExactly(ts, frames, k, p, ds)
    ensures LivesExactly(ts, frames, n, p, ds)
  {
    hide Fate, ListAfter, Handled;
    InTimeNext(ts[p], ds, k, n);
    if Fate(ts, frames, k, p).Some? {
      LivesOn(ts, frames, k, n, p, Fate(ts, frames, k, p).value, ds);
    } else {
      GoneIsGone(ts, frames, k, n, p);
    }
  }

  /** The lifetime of a layer is exact: not found again in the first frame, it is in the list after n frames exactly if
      the frame times since never exceeded its time to live, with its times shortened and lengthened by their sum. */
  lemma {:induction false} Lifetime(ts: seq<InfoText>, frames: seq<Frame>, n: nat, p: nat, ds: seq<real>)
    requires 1 <= n <= |frames| && n <= |ds| && p < |ts| && DealtWithAt(ts, frames, n, p, ds)
    requires Handled(ts, frames[0], p).Over?
    ensures LivesExactly(ts, frames, n, p, ds)
  {
    hide *;
    if n == 1 {
      FirstFrame(ts, frames, n, p, ds);
    } else {
      DealtWithBefore(ts, frames, n - 1, n, p, ds);
      Lifetime(ts, frames, n - 1, p, ds);
      NextFrame(ts, frames, n - 1, n, p, ds);
    }
  }

  lemma {:induction false} TotalGrows(ds: seq<real>, m: nat, n: nat)
    requires m <= n <= |ds| && forall k | 0 <= k < n :: ds[k] >= 0.0
    ensures Total(ds, m) <= Total(ds, n)
  {
    if m == n {
    } else {
      TotalGrows(ds, m, n - 1);
    }
  }

  /** Every frame time of the frame is the same. */
  ghost predicate AtOneTime(frame: Frame, d: real) {
    frame.closing == d && forall i | 0 <= i < |frame.calls| :: frame.calls[i].frameTime == d
  }

  lemma {:induction false} EventsAtOneTime(ts: seq<InfoText>, xs: seq<Call>, d: real, i: nat)
    requires i <= |xs| && forall j | 0 <= j < |xs| :: xs[j].frameTime == d
    ensures forall e | e in Events(ts, xs, i) && e.Over? :: e.time == d
  {
    hide CallEvents;
    if i == 0 {
    } else {
      var j := i - 1;
      EventsAtOneTime(ts, xs, d, j);
      CallAtOneTime(ts, xs, d, j);
      EventsNext(ts, xs, j, Events(ts, xs, j), Events(ts, xs, i));
    }
  }

  lemma CallAtOneTime(ts: seq<InfoText>, xs: seq<Call>, d: real, i: nat)
    requires i < |xs| && xs[i].frameTime == d
    ensures forall e | e in CallEvents(ts, xs, i) && e.Over? :: e.time == d
  {
  }

  lemma {:induction false} DealtWithAtTheirTimes(ts: seq<InfoText>, frames: seq<Frame>, n: nat, p: nat, ds: seq<real>)
    requires n <= |frames| && n <= |ds| && p < |ts| && forall k | 0 <= k < n :: AtOneTime(frames[k], ds[k])
    ensures DealtWithAt(ts, frames, n, p, ds)
  {
    forall k | 0 <= k < n && Fate(ts, frames, k, p).Some?
      ensures var e := Handled(ListAfter(ts, frames, k), frames[k], Fate(ts, frames, k, p).value);
              e.Over? ==> e.time == ds[k]
    {
      var list, q := ListAfter(ts, frames, k), Fate(ts, frames, k, p).value;
      assert AtOneTime(frames[k], ds[k]);
      EventsAtOneTime(list, frames[k].calls, ds[k], |frames[k].calls|);
      assert Handled(list, frames[k], q) in FrameEvents(list, frames[k]);
    }
  }

  /** When time does not run backwards, a layer last seen with budget F stays exactly while the frame times since then
      add up to F at most. */
  lemma GhostLifetime(ts: seq<InfoText>, frames: seq<Frame>, n: nat, p: nat, ds: seq<real>)
    requires 1 <= n <= |frames| && n <= |ds| && p < |ts| && Handled(ts, frames[0], p).Over?
    requires forall k | 0 <= k < n :: AtOneTime(frames[k], ds[k]) && ds[k] >= 0.0
    ensures Fate(ts, frames, n, p).Some? <==> Total(ds, n) <= ts[p].timeToLive
    ensures Fate(ts, frames, n, p).Some? ==>
              ListAfter(ts, frames, n)[Fate(ts, frames, n, p).value] == Faded(ts[p], Total(ds, n))
  {
    DealtWithAtTheirTimes(ts, frames, n, p, ds);
    Lifetime(ts, frames, n, p, ds);
    forall m | 1 <= m <= n
      ensures Total(ds, m) <= Total(ds, n)
    {
      TotalGrows(ds, m, n);
    }
  }

  // ----- the time an entry is dealt with, by its place -----

  /** Every call of the frame is at time d. */
  ghost predicate CalledAt(frame: Frame, d: real) {
    forall i | 0 <= i < |frame.calls| :: frame.calls[i].frameTime == d
  }

  /** An entry before the place reached by the calls is dealt with by a call, one from there on by the closing call. */
  function TimeAt(ts: seq<InfoText>, frame: Frame, d: real, p: nat): real {
    if p < Cursor(ts, frame.calls, |frame.calls|) then d else frame.closing
  }

  lemma OverTime(ts: seq<InfoText>, frame: Frame, d: real, e: Event)
    requires CalledAt(frame, d) && e in FrameEvents(ts, frame) && e.Over?
    ensures e.time == TimeAt(ts, frame, d, e.entry)
  {
    var xs, n := frame.calls, |frame.calls|;
    var c := Cursor(ts, xs, n);
    EventsAtOneTime(ts, xs, d, n);
    CallsAge(ts, xs, n);
    CallsReach(ts, xs, n);
    EitherPart(Events(ts, xs, n), OverFrom(c, |ts|, frame.closing), e);
    if e in OverFrom(c, |ts|, frame.closing) {
      OverFromPlace(c, |ts|, frame.closing, e);
    }
  }

  lemma EitherPart(es: seq<Event>, ds: seq<Event>, e: Event)
    requires e in es + ds
    ensures e in es || e in ds
  {
  }

  lemma OverFromPlace(a: nat, b: nat, time: real, e: Event)
    requires a <= b && e in OverFrom(a, b, time)
    ensures e.Over? && e.entry >= a && e.time == time
  {
  }

  /** The times at which entry p and what it leaves are dealt with, when the calls of frame k are at time ds[k]. */
  ghost function FadeTimes(ts: seq<InfoText>, frames: seq<Frame>, n: nat, p: nat, ds: seq<real>): (fs: seq<real>)
    requires n <= |frames| && n <= |ds| && p < |ts|
    ensures |fs| == n
  {
    seq(n, k requires 0 <= k < n =>
      var q := Fate(ts, frames, k, p);
      if q.None? then 0.0 else TimeAt(ListAfter(ts, frames, k), frames[k], ds[k], q.value))
  }

  lemma DealtWithAtFadeTimes(ts: seq<InfoText>, frames: seq<Frame>, n: nat, p: nat, ds: seq<real>, fs: seq<real>)
    requires n <= |frames| && n <= |ds| && p < |ts| && fs == FadeTimes(ts, frames, n, p, ds)
    requires forall k | 0 <= k < n :: CalledAt(frames[k], ds[k])
    ensures DealtWithAt(ts, frames, n, p, fs)
  {
    hide Fate, ListAfter, TimeAt, FrameEvents;
    forall k | 0 <= k < n && Fate(ts, frames, k, p).Some?
      ensures var e := Handled(ListAfter(ts, frames, k), frames[k], Fate(ts, frames, k, p).value);
              e.Over? ==> e.time == fs[k]
    {
      var list, q := ListAfter(ts, frames, k), Fate(ts, frames, k, p).value;
      var e := Handled(list, frames[k], q);
      assert CalledAt(frames[k], ds[k]) && EntryOf(e) == [q] && e in FrameEvents(list, frames[k]);
      if e.Over? {
        OverTime(list, frames[k], ds[k], e);
      }
    }
  }

  lemma FadeTimesGrow(ts: seq<InfoText>, frames: seq<Frame>, n: nat, p: nat, ds: seq<real>, m: nat)
    requires m <= n <= |frames| && n <= |ds| && p < |ts|
    requires forall k | 0 <= k < n :: ds[k] >= 0.0 && frames[k].closing >= 0.0
    ensures Total(FadeTimes(ts, frames, n, p, ds), m) <= Total(FadeTimes(ts, frames, n, p, ds), n)
  {
    hide Fate, ListAfter, Cursor;
    TotalGrows(FadeTimes(ts, frames, n, p, ds), m, n);
  }

  /** The lifetime of a layer whose frames may be closed at another time than they are called at: it stays exactly while
      the times at which it is dealt with, as its places give them, add up to its time to live at most. */
  lemma LifetimeByPlace(ts: seq<InfoText>, frames: seq<Frame>, n: nat, p: nat, ds: seq<real>, fs: seq<real>)
    requires 1 <= n <= |frames| && n <= |ds| && p < |ts| && Handled(ts, frames[0], p).Over?
    requires forall k | 0 <= k < n :: CalledAt(frames[k], ds[k]) && ds[k] >= 0.0 && frames[k].closing >= 0.0
    requires fs == FadeTimes(ts, frames, n, p, ds)
    ensures Fate(ts, frames, n, p).Some? <==> Total(fs, n) <= ts[p].timeToLive
    ensures Fate(ts, frames, n, p).Some? ==>
              ListAfter(ts, frames, n)[Fate(ts, frames, n, p).value] == Faded(ts[p], Total(fs, n))
  {
    hide Fate, ListAfter, Handled, FadeTimes, CalledAt, Total, Faded;
    DealtWithAtFadeTimes(ts, frames, n, p, ds, fs);
    Lifetime(ts, frames, n, p, fs);
    forall m | 1 <= m <= n
      ensures Total(fs, m) <= Total(fs, n)
    {
      FadeTimesGrow(ts, frames, n, p, ds, m);
    }
  }

  // ----- how old a layer seen in every frame is -----

  /** The live layers of ts, in order, are what the calls are about. */
  ghost predicate SameLayers(ts: seq<InfoText>, xs: seq<Call>) {
    var live := Collect(ts, Live);
    |live| == |xs| && forall i | 0 <= i < |xs| :: KeyOf(live[i]) == KeyOf(xs[i].text)
  }

  /** With i live layers behind the place c, the first match for call i is live layer i. */
  lemma OwnIsFirst(ts: seq<InfoText>, xs: seq<Call>, i: nat, c: nat)
    requires SameLayers(ts, xs) && i < |xs| && c <= |ts| && |CollectFirst(ts, Live, c)| == i
    ensures var k := Find(ts, c, xs[i].text);
            k < |ts| && ts[k] == Collect(ts, Live)[i] && |CollectFirst(ts, Live, k)| == i
  {
    var k := Find(ts, c, xs[i].text);
    var q := CollectSource(ts, Live, |ts|, i);
    if q < c {
      CollectGrows(ts, Live, q + 1, c);
    }
    if k < q {
      CollectGrows(ts, Live, c, k);
      CollectGrows(ts, Live, k + 1, q);
    }
  }

  /** Then call i finds live layer i. */
  lemma {:induction false} FindsItsOwn(ts: seq<InfoText>, xs: seq<Call>, i: nat)
    requires SameLayers(ts, xs) && i < |xs|
    ensures Hit(ts, xs, i) < |ts| && ts[Hit(ts, xs, i)] == Collect(ts, Live)[i]
    ensures |CollectFirst(ts, Live, Hit(ts, xs, i))| == i
  {
    if i == 0 {
      OwnIsFirst(ts, xs, i, 0);
    } else {
      var j := i - 1;
      FindsItsOwn(ts, xs, j);
      var k := Hit(ts, xs, j);
      assert |CollectFirst(ts, Live, k + 1)| == i;
      OwnIsFirst(ts, xs, i, k + 1);
      CursorNext(ts, xs, j, k, Cursor(ts, xs, i));
    }
  }

  lemma CursorNext(ts: seq<InfoText>, xs: seq<Call>, i: nat, k: nat, c: nat)
    requires i < |xs| && k == Hit(ts, xs, i) < |ts| && c == Cursor(ts, xs, i + 1)
    ensures c == k + 1
  {
  }

  /** All frames make the same calls, as far as what they are about goes. */
  ghost predicate Steady(frames: seq<Frame>, keys: seq<Key>) {
    forall k | 0 <= k < |frames| ::
      |frames[k].calls| == |keys| && forall i | 0 <= i < |keys| :: KeyOf(frames[k].calls[i].text) == keys[i]
  }

  lemma LiveKeys(ts: seq<InfoText>, frame: Frame, i: nat)
    requires i < |frame.calls|
    ensures |Collect(Merged(ts, frame), Live)| == |frame.calls|
    ensures Collect(Merged(ts, frame), Live)[i] == Entered(ts, frame.calls, i)
    ensures KeyOf(Entered(ts, frame.calls, i)) == KeyOf(frame.calls[i].text)
  {
    LiveAfter(ts, frame);
  }

  lemma StaysSteady(ts: seq<InfoText>, frames: seq<Frame>, keys: seq<Key>, n: nat, list: seq<InfoText>)
    requires Steady(frames, keys) && 1 <= n < |frames| && list == ListAfter(ts, frames, n)
    ensures SameLayers(list, frames[n].calls)
  {
    var before := ListAfter(ts, frames, n - 1);
    LiveAfter(before, frames[n - 1]);
    forall i | 0 <= i < |keys|
      ensures KeyOf(Collect(list, Live)[i]) == KeyOf(frames[n].calls[i].text)
    {
      LiveKeys(before, frames[n - 1], i);
    }
  }

  /** The frame times at which layer i was called in the frames after the first. */
  function TimeSince(frames: seq<Frame>, n: nat, i: nat): real
    requires 1 <= n <= |frames| && forall k | 0 <= k < n :: i < |frames[k].calls|
  {
    if n == 1 then 0.0 else TimeSince(frames, n - 1, i) + frames[n - 1].calls[i].frameTime
  }

  /** While the calls stay the same, every layer's age is what it was in the first frame and the frame times since. */
  lemma {:induction false} SteadyAges(ts: seq<InfoText>, frames: seq<Frame>, keys: seq<Key>, n: nat, i: nat)
    requires Steady(frames, keys) && 1 <= n <= |frames| && i < |keys|
    ensures |Collect(ListAfter(ts, frames, n), Live)| == |keys|
    ensures Collect(ListAfter(ts, frames, n), Live)[i].timeAlive
         == Entered(ts, frames[0].calls, i).timeAlive + TimeSince(frames, n, i)
  {
    var m := n - 1;
    var list := ListAfter(ts, frames, m);
    LiveKeys(list, frames[m], i);
    hide Merged, Hit;
    if m > 0 {
      SteadyAges(ts, frames, keys, m, i);
      StaysSteady(ts, frames, keys, m, list);
      FindsItsOwn(list, frames[m].calls, i);
    } else {
      assert list == ts;
    }
  }
}
