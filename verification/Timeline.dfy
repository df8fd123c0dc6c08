/** The declarative timeline of a run: which window every result belongs to and
    what every window holds, as functions of the whole sequence of results. */
module Timeline {
  import opened Arith
  import opened Prelude

  /** One call of setRescode: the text of its error code, the second it is
      recorded in, and the milliseconds since the last markBegin. */
  datatype Event = Event(code: string, sec: nat, duration: int)

  datatype TimeWindow = TimeWindow(
    total: nat, min: nat, max: nat, durations: seq<int>, count: nat, ec: map<string, int>)

  /** A window as the gap-filling loop pushes it, and one about to get a result. */
  const GAP := TimeWindow(0, 0, 0, [], 0, map[])
  const FRESH := TimeWindow(0, U32 - 1, 0, [], 0, map[])

  /* ---- counting ---- */

  function Bump(m: map<string, int>, code: string): map<string, int> {
    m[code := (if code in m then m[code] else 0) + 1]
  }

  function Tally(log: seq<Event>): map<string, int> {
    if log == [] then map[] else Bump(Tally(Front(log)), Last(log).code)
  }

  datatype Which = Any | Only(code: string) {
    predicate Matches(l: string) {
      Any? || code == l
    }
  }

  function Count(log: seq<Event>, which: Which): nat {
    if log == [] then 0 else Count(Front(log), which) + if which.Matches(Last(log).code) then 1 else 0
  }

  function Entry(m: map<string, int>, code: string): int {
    if code in m then m[code] else 0
  }

  lemma {:induction false} TallyCounts(log: seq<Event>, code: string)
    ensures Entry(Tally(log), code) == Count(log, Only(code))
    ensures code in Tally(log) <==> Count(log, Only(code)) > 0
  {
    if log != [] {
      TallyCounts(Front(log), code);
      TallyCounts(Front(log), Last(log).code);
    }
  }

  lemma {:induction false} CountAny(log: seq<Event>)
    ensures Count(log, Any) == |log|
  {
    if log != [] {
      CountAny(Front(log));
    }
  }

  ghost function MapSum(m: map<string, int>): int {
    if m == map[] then 0
    else
      var k :| k in m;
      m[k] + MapSum(m - {k})
  }

  lemma {:induction false} MapSumRemove(m: map<string, int>, k: string)
    requires k in m
    ensures MapSum(m) == m[k] + MapSum(m - {k})
    decreases |m|
  {
    var j :| j in m && MapSum(m) == m[j] + MapSum(m - {j});
    if j != k {
      MapSumRemove(m - {j}, k);
      MapSumRemove(m - {k}, j);
      assert m - {j} - {k} == m - {k} - {j};
    }
  }

  /** The counters of a tally add up to the number of results. */
  lemma {:induction false} TallySum(log: seq<Event>)
    ensures MapSum(Tally(log)) == |log|
  {
    if log != [] {
      TallySum(Front(log));
      var m, l := Tally(Front(log)), Last(log).code;
      MapSumRemove(Bump(m, l), l);
      if l in m {
        MapSumRemove(m, l);
        assert Bump(m, l) - {l} == m - {l};
      } else {
        assert Bump(m, l) - {l} == m;
      }
    }
  }

  /* ---- the contents of one window ---- */

  function Durations(log: seq<Event>): seq<int> {
    if log == [] then [] else Durations(Front(log)) + [Last(log).duration]
  }

  function Total(log: seq<Event>): int {
    if log == [] then 0 else Total(Front(log)) + Last(log).duration
  }

  /** A duration converted to unsigned int. */
  function Unsigned(duration: int): nat {
    duration % U32
  }

  function Least(log: seq<Event>): (m: nat)
    ensures m < U32
  {
    if log == [] then U32 - 1
    else
      var m, d := Least(Front(log)), Unsigned(Last(log).duration);
      if d < m then d else m
  }

  function Greatest(log: seq<Event>): (m: nat)
    ensures m < U32
  {
    if log == [] then 0
    else
      var m, d := Greatest(Front(log)), Unsigned(Last(log).duration);
      if d > m then d else m
  }

  function WindowOf(log: seq<Event>): TimeWindow {
    if log == [] then GAP
    else TimeWindow(Total(log) % U32, Least(log), Greatest(log), Durations(log), |log|, Tally(log))
  }

  lemma {:induction false} LeastAndGreatest(log: seq<Event>)
    requires log != []
    ensures forall k :: 0 <= k < |log| ==> Least(log) <= Unsigned(log[k].duration) <= Greatest(log)
    ensures exists k :: 0 <= k < |log| && Least(log) == Unsigned(log[k].duration)
    ensures exists k :: 0 <= k < |log| && Greatest(log) == Unsigned(log[k].duration)
  {
    var n := |log| - 1;
    assert log[n] == Last(log);
    if n == 0 {
      assert Least(log) == Unsigned(log[0].duration) == Greatest(log);
    } else {
      var front := Front(log);
      LeastAndGreatest(front);
      assert forall k :: 0 <= k < n ==> front[k] == log[k];
      var i :| 0 <= i < n && Least(front) == Unsigned(front[i].duration);
      var j :| 0 <= j < n && Greatest(front) == Unsigned(front[j].duration);
      assert Least(log) == Unsigned(log[i].duration) || Least(log) == Unsigned(log[n].duration);
      assert Greatest(log) == Unsigned(log[j].duration) || Greatest(log) == Unsigned(log[n].duration);
    }
  }

  lemma {:induction false} DurationsAt(log: seq<Event>)
    ensures |Durations(log)| == |log|
    ensures forall k :: 0 <= k < |log| ==> Durations(log)[k] == log[k].duration
  {
    if log != [] {
      DurationsAt(Front(log));
    }
  }

  /** What setRescode does to the last window. */
  function AddTo(win: TimeWindow, code: string, duration: int): TimeWindow {
    var d := Unsigned(duration);
    TimeWindow(
      (win.total + d) % U32,
      if d < win.min then d else win.min,
      if d > win.max then d else win.max,
      win.durations + [duration],
      win.count + 1,
      Bump(win.ec, code))
  }

  lemma ModAdd(a: int, b: int)
    ensures (a % U32 + b % U32) % U32 == (a + b) % U32
  {
  }

  lemma AddToWindow(log: seq<Event>, e: Event)
    ensures AddTo(if log == [] then FRESH else WindowOf(log), e.code, e.duration) == WindowOf(log + [e])
  {
    var log' := log + [e];
    assert Front(log') == log && Last(log') == e;
    ModAdd(Total(log), e.duration);
    assert Total(log') == Total(log) + e.duration;
    assert Durations(log') == Durations(log) + [e.duration];
    assert Tally(log') == Bump(Tally(log), e.code);
    if log == [] {
      assert Tally(log) == map[] && Durations(log) == [] && Total(log) == 0;
    }
  }

  /* ---- the window of every result ---- */

  /** The number of the frame a second belongs to; the frame itself starts at
      FrameNo * step, which is sec - sec % step. */
  function FrameNo(step: nat, sec: nat): nat
    requires step >= 1
  {
    sec / step
  }

  lemma FrameStart(step: nat, sec: nat)
    requires step >= 1
    ensures sec % step <= sec
    ensures sec - sec % step == FrameNo(step, sec) * step
  {
    assert sec == sec / step * step + sec % step;
  }

  lemma FrameZero(step: nat, sec: nat)
    requires step >= 1
    ensures FrameNo(step, sec) == 0 <==> sec < step
  {
    assert sec == sec / step * step + sec % step;
    assert sec / step == 0 ==> sec == sec % step;
  }

  /** The running maximum of the frames. */
  function LatestNo(step: nat, log: seq<Event>): nat
    requires step >= 1
  {
    if log == [] then 0
    else
      var m, f := LatestNo(step, Front(log)), FrameNo(step, Last(log).sec);
      if f > m then f else m
  }

  /** How many results come before the first one in a non-zero frame. */
  function Leading(step: nat, log: seq<Event>): (z: nat)
    requires step >= 1
    ensures z <= |log|
  {
    if log == [] then 0
    else
      var z := Leading(step, Front(log));
      if z == |log| - 1 && FrameNo(step, Last(log).sec) == 0 then z + 1 else z
  }

  lemma {:induction false} LeadingMeaning(step: nat, log: seq<Event>)
    requires step >= 1
    ensures var z := Leading(step, log);
            && (forall k :: 0 <= k < z ==> FrameNo(step, log[k].sec) == 0)
            && (z < |log| ==> FrameNo(step, log[z].sec) > 0)
    ensures Leading(step, log) == |log| <==> LatestNo(step, log) == 0
  {
    if log != [] {
      LeadingMeaning(step, Front(log));
    }
  }

  /** The first non-zero frame, the one win_begin records. */
  function BaseNo(step: nat, log: seq<Event>): nat
    requires step >= 1
  {
    var z := Leading(step, log);
    if z < |log| then FrameNo(step, log[z].sec) else 0
  }

  lemma {:induction false} BaseBelowLatest(step: nat, log: seq<Event>)
    requires step >= 1
    ensures BaseNo(step, log) <= LatestNo(step, log)
  {
    if log != [] {
      BaseBelowLatest(step, Front(log));
    }
  }

  /** The index of the window the last result goes to. Results in frame zero
      before any other get a window each, since a cur_wintime of 0 reads as
      unset; after them windows follow the running maximum of the frames. */
  function Slot(step: nat, log: seq<Event>): nat
    requires step >= 1 && log != []
  {
    var z := Leading(step, log);
    if z == |log| then |log| - 1
    else
      BaseBelowLatest(step, log);
      z + LatestNo(step, log) - BaseNo(step, log)
  }

  function WindowCount(step: nat, log: seq<Event>): nat
    requires step >= 1
  {
    if log == [] then 0 else Slot(step, log) + 1
  }

  /** The results in window w, in order. */
  function Picks(step: nat, log: seq<Event>, w: nat): seq<Event>
    requires step >= 1
  {
    if log == [] then []
    else Picks(step, Front(log), w) + if Slot(step, log) == w then [Last(log)] else []
  }

  /** The timeline of a run. */
  function Histogram(step: nat, log: seq<Event>): seq<TimeWindow>
    requires step >= 1
  {
    seq(WindowCount(step, log), w requires w >= 0 => WindowOf(Picks(step, log, w)))
  }

  /* ---- how the timeline grows ---- */

  /** The window of one more result, seen from the state before it. */
  lemma SlotStep(step: nat, log: seq<Event>, e: Event)
    requires step >= 1
    ensures var log', f, cur, n := log + [e], FrameNo(step, e.sec), LatestNo(step, log), WindowCount(step, log);
            && LatestNo(step, log') == (if f > cur then f else cur)
            && BaseNo(step, log') == (if cur == 0 then f else BaseNo(step, log))
            && Slot(step, log') == (if cur == 0 then n else if f > cur then n - 1 + f - cur else n - 1)
            && (cur > 0 ==> n > 0)
  {
    var log' := log + [e];
    assert Front(log') == log && Last(log') == e;
    LeadingMeaning(step, log);
    BaseBelowLatest(step, log);
  }

  lemma {:induction false} PicksBeyond(step: nat, log: seq<Event>, w: nat)
    requires step >= 1 && w >= WindowCount(step, log)
    ensures Picks(step, log, w) == []
  {
    if log != [] {
      assert log == Front(log) + [Last(log)];
      SlotStep(step, Front(log), Last(log));
      PicksBeyond(step, Front(log), w);
    }
  }

  /** Appending a result changes the window it goes to, after gap windows if need be. */
  lemma HistogramStep(step: nat, log: seq<Event>, e: Event)
    requires step >= 1
    ensures var h, h', s, n := Histogram(step, log), Histogram(step, log + [e]), Slot(step, log + [e]), WindowCount(step, log);
            && |h| == n && |h'| == s + 1 && n <= s + 1
            && (forall w :: 0 <= w < s ==> h'[w] == if w < n then h[w] else GAP)
            && h'[s] == AddTo(if s < n then h[s] else FRESH, e.code, e.duration)
  {
    var log' := log + [e];
    assert Front(log') == log && Last(log') == e;
    SlotStep(step, log, e);
    var s, n := Slot(step, log'), WindowCount(step, log);
    forall w: nat | w < s
      ensures Histogram(step, log')[w] == if w < n then Histogram(step, log)[w] else GAP
    {
      assert Picks(step, log', w) == Picks(step, log, w);
      if w >= n {
        PicksBeyond(step, log, w);
      }
    }
    if s >= n {
      PicksBeyond(step, log, s);
    } else {
      assert Last(Picks(step, log, s)) == Last(log);
    }
    AddToWindow(Picks(step, log, s), e);
  }

  /** The windows with the one for a result in frame f opened, cur being the
      latest frame before it. */
  function Opened(h: seq<TimeWindow>, cur: nat, f: nat): seq<TimeWindow> {
    if cur == 0 then h + [FRESH]
    else if f > cur then h + seq(f - cur - 1, _ => GAP) + [FRESH]
    else h
  }

  lemma OpenedStep(h: seq<TimeWindow>, h': seq<TimeWindow>, cur: nat, f: nat, s: nat, e: Event)
    requires cur > 0 ==> h != []
    requires s == if cur == 0 then |h| else if f > cur then |h| - 1 + f - cur else |h| - 1
    requires |h'| == s + 1
    requires forall w :: 0 <= w < s ==> h'[w] == if w < |h| then h[w] else GAP
    requires h'[s] == AddTo(if s < |h| then h[s] else FRESH, e.code, e.duration)
    ensures var o := Opened(h, cur, f);
            o != [] && h' == o[|o| - 1 := AddTo(Last(o), e.code, e.duration)]
  {
  }

  /** The timeline grows by opening a window and adding the result to the last one. */
  lemma HistogramGrows(step: nat, log: seq<Event>, e: Event)
    requires step >= 1
    ensures var h := Opened(Histogram(step, log), LatestNo(step, log), FrameNo(step, e.sec));
            h != [] && Histogram(step, log + [e]) == h[|h| - 1 := AddTo(Last(h), e.code, e.duration)]
  {
    HistogramStep(step, log, e);
    SlotStep(step, log, e);
    OpenedStep(Histogram(step, log), Histogram(step, log + [e]), LatestNo(step, log), FrameNo(step, e.sec),
               Slot(step, log + [e]), e);
  }

  /* ---- conservation ---- */

  function SumCounts(windows: seq<TimeWindow>): nat {
    if windows == [] then 0 else SumCounts(Front(windows)) + Last(windows).count
  }

  function SumEntries(windows: seq<TimeWindow>, code: string): int {
    if windows == [] then 0 else SumEntries(Front(windows), code) + Entry(Last(windows).ec, code)
  }

  function Sum(s: seq<nat>): nat {
    if s == [] then 0 else Sum(Front(s)) + Last(s)
  }

  lemma {:induction false} SumBump(a: seq<nat>, b: seq<nat>, at: nat, d: nat)
    requires |a| == |b| && forall w :: 0 <= w < |a| ==> b[w] == a[w] + if w == at then d else 0
    ensures Sum(b) == Sum(a) + if at < |a| then d else 0
  {
    if a != [] {
      SumBump(Front(a), Front(b), at, d);
    }
  }

  lemma {:induction false} SumZero(a: seq<nat>)
    requires forall w :: 0 <= w < |a| ==> a[w] == 0
    ensures Sum(a) == 0
  {
    if a != [] {
      SumZero(Front(a));
    }
  }

  /** How many matching results each of the first n windows holds. */
  function PickCounts(step: nat, log: seq<Event>, n: nat, which: Which): seq<nat>
    requires step >= 1
  {
    seq(n, w requires w >= 0 => Count(Picks(step, log, w), which))
  }

  lemma CountPick(step: nat, log: seq<Event>, w: nat, which: Which)
    requires step >= 1 && log != []
    ensures Count(Picks(step, log, w), which) ==
            Count(Picks(step, Front(log), w), which) + if Slot(step, log) == w && which.Matches(Last(log).code) then 1 else 0
  {
    var p := Picks(step, Front(log), w);
    assert Front(p + [Last(log)]) == p;
    assert p + [] == p;
  }

  /** Every result is in exactly one window. */
  lemma {:induction false} EachInOneWindow(step: nat, log: seq<Event>, n: nat, which: Which)
    requires step >= 1 && n >= WindowCount(step, log)
    ensures Sum(PickCounts(step, log, n, which)) == Count(log, which)
  {
    var counts := PickCounts(step, log, n, which);
    if log == [] {
      SumZero(counts);
    } else {
      var front := Front(log);
      assert log == front + [Last(log)];
      SlotStep(step, front, Last(log));
      EachInOneWindow(step, front, n, which);
      PickCountsStep(step, log, n, which);
      hide PickCounts, Picks, Slot;
      SumBump(PickCounts(step, front, n, which), counts, Slot(step, log), if which.Matches(Last(log).code) then 1 else 0);
    }
  }

  /** The last result counts in its window only. */
  lemma PickCountsStep(step: nat, log: seq<Event>, n: nat, which: Which)
    requires step >= 1 && log != []
    ensures var a, b := PickCounts(step, Front(log), n, which), PickCounts(step, log, n, which);
            && |a| == |b| == n
            && forall w :: 0 <= w < n ==>
                 b[w] == a[w] + if w == Slot(step, log) then (if which.Matches(Last(log).code) then 1 else 0) else 0
  {
    hide Picks, Slot, Count;
    forall w: nat | w < n
      ensures PickCounts(step, log, n, which)[w] == PickCounts(step, Front(log), n, which)[w]
              + if w == Slot(step, log) then (if which.Matches(Last(log).code) then 1 else 0) else 0
    {
      CountPick(step, log, w, which);
    }
  }

  lemma {:induction false} SumsArePicks(step: nat, log: seq<Event>, n: nat, code: string)
    requires step >= 1 && n <= WindowCount(step, log)
    ensures SumCounts(Histogram(step, log)[..n]) == Sum(PickCounts(step, log, n, Any))
    ensures SumEntries(Histogram(step, log)[..n], code) == Sum(PickCounts(step, log, n, Only(code)))
  {
    assert |Histogram(step, log)| == WindowCount(step, log);
    if n == 0 {
      assert Histogram(step, log)[..0] == [] && PickCounts(step, log, 0, Any) == PickCounts(step, log, 0, Only(code)) == [];
    } else {
      hide Histogram, PickCounts, Picks, Count, Entry, WindowCount;
      SumsArePicks(step, log, n - 1, code);
      SumsNext(Histogram(step, log), n, code);
      PickCountsNext(step, log, n, Any);
      PickCountsNext(step, log, n, Only(code));
      WindowCounts(step, log, n - 1, code);
    }
  }

  lemma SumsNext(h: seq<TimeWindow>, n: nat, code: string)
    requires 1 <= n <= |h|
    ensures SumCounts(h[..n]) == SumCounts(h[..n - 1]) + h[n - 1].count
    ensures SumEntries(h[..n], code) == SumEntries(h[..n - 1], code) + Entry(h[n - 1].ec, code)
  {
    hide Entry;
    assert Front(h[..n]) == h[..n - 1] && Last(h[..n]) == h[n - 1];
  }

  lemma PickCountsNext(step: nat, log: seq<Event>, n: nat, which: Which)
    requires step >= 1 && n >= 1
    ensures Sum(PickCounts(step, log, n, which))
            == Sum(PickCounts(step, log, n - 1, which)) + Count(Picks(step, log, n - 1), which)
  {
    hide Picks, Count;
    var counts := PickCounts(step, log, n, which);
    assert Front(counts) == PickCounts(step, log, n - 1, which);
  }

  lemma WindowCounts(step: nat, log: seq<Event>, w: nat, code: string)
    requires step >= 1 && w < WindowCount(step, log)
    ensures Histogram(step, log)[w].count == Count(Picks(step, log, w), Any)
    ensures Entry(Histogram(step, log)[w].ec, code) == Count(Picks(step, log, w), Only(code))
  {
    CountAny(Picks(step, log, w));
    TallyCounts(Picks(step, log, w), code);
  }

  /** The windows together count every result once, error by error. */
  lemma Conservation(step: nat, log: seq<Event>, code: string)
    requires step >= 1
    ensures SumCounts(Histogram(step, log)) == |log| == MapSum(Tally(log))
    ensures SumEntries(Histogram(step, log), code) == Entry(Tally(log), code)
  {
    var n, h := WindowCount(step, log), Histogram(step, log);
    SumsArePicks(step, log, n, code);
    assert h[..n] == h;
    EachInOneWindow(step, log, n, Any);
    EachInOneWindow(step, log, n, Only(code));
    CountAny(log);
    TallySum(log);
    TallyCounts(log, code);
  }

  /** The k-th result is in the window of its prefix of the run. */
  lemma {:induction false} ResultInItsWindow(step: nat, log: seq<Event>, k: nat)
    requires step >= 1 && k < |log|
    ensures log[k] in Picks(step, log, Slot(step, log[..k + 1]))
    ensures Slot(step, log[..k + 1]) < WindowCount(step, log)
  {
    if k == |log| - 1 {
      assert log[..k + 1] == log;
    } else {
      var front := Front(log);
      assert log == front + [Last(log)] && log[..k + 1] == front[..k + 1];
      ResultInItsWindow(step, front, k);
      SlotStep(step, front, Last(log));
    }
  }

  /** What every window of the timeline holds. */
  lemma WindowConsistency(step: nat, log: seq<Event>, w: nat)
    requires step >= 1 && w < WindowCount(step, log)
    ensures var win, picks := Histogram(step, log)[w], Picks(step, log, w);
            && win.count == |win.durations| == |picks| == MapSum(win.ec)
            && (forall k :: 0 <= k < |picks| ==> win.durations[k] == picks[k].duration)
            && (picks == [] ==> win.total == win.min == win.max == 0 && win.ec == map[])
            && (picks != [] ==>
                  && win.total == Total(picks) % U32
                  && (forall k :: 0 <= k < |picks| ==> win.min <= Unsigned(picks[k].duration) <= win.max)
                  && (exists k :: 0 <= k < |picks| && win.min == Unsigned(picks[k].duration))
                  && (exists k :: 0 <= k < |picks| && win.max == Unsigned(picks[k].duration)))
  {
    var picks := Picks(step, log, w);
    DurationsAt(picks);
    TallySum(picks);
    if picks != [] {
      LeastAndGreatest(picks);
    }
  }

  /* ---- when the timeline is regular ---- */

  /** Result k sits (running maximum of the frames - win_begin) / step windows
      after the first. */
  ghost predicate InPlace(step: nat, log: seq<Event>, k: nat)
    requires step >= 1 && k < |log|
  {
    Slot(step, log[..k + 1]) == (LatestNo(step, log[..k + 1]) * step - BaseNo(step, log) * step) / step
  }

  /** Every result is in place and the timeline ends with the latest frame. */
  ghost predicate Regular(step: nat, log: seq<Event>)
    requires step >= 1
  {
    && WindowCount(step, log) == (LatestNo(step, log) * step - BaseNo(step, log) * step) / step + 1
    && forall k :: 0 <= k < |log| ==> InPlace(step, log, k)
  }

  lemma DifferenceQuotient(q: int, b: int, step: nat)
    requires step >= 1
    ensures (q * step - b * step) / step == q - b
  {
    assert q * step - b * step == (q - b) * step;
    MulDiv(q - b, step);
  }

  lemma LeadingPrefix(step: nat, log: seq<Event>, k: nat)
    requires step >= 1 && k < |log| && FrameNo(step, log[0].sec) > 0
    ensures Leading(step, log[..k + 1]) == 0 && Leading(step, log) == 0
    ensures BaseNo(step, log[..k + 1]) == BaseNo(step, log)
  {
    LeadingMeaning(step, log[..k + 1]);
    LeadingMeaning(step, log);
  }

  /** A timeline of two or more results is regular exactly when the first of
      them is recorded in a non-zero frame. */
  lemma RegularIff(step: nat, log: seq<Event>)
    requires step >= 1 && log != []
    ensures Regular(step, log) <==> |log| == 1 || log[0].sec >= step
  {
    FrameZero(step, log[0].sec);
    DifferenceQuotient(LatestNo(step, log), BaseNo(step, log), step);
    if log[0].sec >= step {
      LeadingPrefix(step, log, 0);
      forall k | 0 <= k < |log|
        ensures InPlace(step, log, k)
      {
        LeadingPrefix(step, log, k);
        DifferenceQuotient(LatestNo(step, log[..k + 1]), BaseNo(step, log), step);
      }
    } else {
      LeadingMeaning(step, log);
      if |log| == 1 {
        assert log[..1] == log;
        assert InPlace(step, log, 0);
      } else {
        assert Leading(step, log) >= 1;
      }
    }
  }
}
