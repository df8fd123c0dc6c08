/** ResultSet: the incremental counters of setRescode and the report made of them. */
module Results {
  import opened Arith
  import opened Prelude
  import opened Timeline
  import opened Percentiles

  datatype ErrorCode = Success | Failure(message: string)

  /** The key under which a result is counted. */
  function CodeText(err: ErrorCode): string {
    if err.Success? then "success" else err.message
  }

  /** A reading of the clock: the second, and the milliseconds since markBegin. */
  datatype Tick = Tick(sec: nat, duration: int)

  function EventOf(err: ErrorCode, now: Tick): Event {
    Event(CodeText(err), now.sec, now.duration)
  }

  datatype ResultOptions = ResultOptions(iterwait: nat, timeres: nat)

  function StepOf(timeres: nat): (step: nat)
    ensures step >= 1
  {
    if timeres == 0 then 1 else timeres
  }

  lemma StepOfTwice(timeres: nat)
    ensures StepOf(StepOf(timeres)) == StepOf(timeres)
  {
  }

  datatype WindowReport = WindowReport(
    count: nat, min: nat, max: nat, avg: nat, ec: map<string, int>, percentile: Option<int>)

  datatype Timings = Timings(base: nat, step: nat, windows: seq<WindowReport>)

  datatype Report = Report(stats: map<string, int>, timings: Option<Timings>)

  function ReportWindow(win: TimeWindow, p: int): WindowReport {
    WindowReport(win.count, win.min, win.max, if win.count == 0 then 0 else win.total / win.count,
                 win.ec, Percentile(win.durations, p))
  }

  /** The report of a run, from its results and the percentile factor in force
      when each window is reported. */
  function ReportOf(timeres: nat, log: seq<Event>, factor: nat -> int): Report {
    var step := StepOf(timeres);
    Report(Tally(log),
           if timeres == 0 && log == [] then None
           else Some(Timings(BaseNo(step, log) * step, step,
                             seq(WindowCount(step, log), w requires 0 <= w < WindowCount(step, log) =>
                                   ReportWindow(Histogram(step, log)[w], factor(w))))))
  }

  /** The windows of a report, one by one. */
  lemma ReportedWindows(timeres: nat, log: seq<Event>, factor: nat -> int)
    requires timeres > 0 || log != []
    ensures var step, report := StepOf(timeres), ReportOf(timeres, log, factor);
            && report.timings.Some? && |report.timings.value.windows| == |Histogram(step, log)|
            && forall w: nat :: w < |Histogram(step, log)| ==>
                 report.timings.value.windows[w] == ReportWindow(Histogram(step, log)[w], factor(w))
  {
  }

  /** These counters and windows are those of the run. */
  ghost predicate Represents(step: nat, log: seq<Event>, stats: map<string, int>, windows: seq<TimeWindow>,
                             latest: nat, begin: nat)
    requires step >= 1
  {
    && stats == Tally(log)
    && windows == Histogram(step, log)
    && latest == StartOf(step, LatestNo(step, log))
    && begin == StartOf(step, BaseNo(step, log))
  }

  /** A result in frame f opens its window and is added to it. */
  function Placed(windows: seq<TimeWindow>, cur: nat, f: nat, code: string, duration: int): seq<TimeWindow>
    requires Opened(windows, cur, f) != []
  {
    var o := Opened(windows, cur, f);
    o[|o| - 1 := AddTo(Last(o), code, duration)]
  }

  /** The second a frame starts with. */
  function StartOf(step: nat, frame: nat): nat {
    frame * step
  }

  lemma RepresentsTimes(step: nat, log: seq<Event>, stats: map<string, int>, windows: seq<TimeWindow>,
                        latest: nat, begin: nat, e: Event)
    requires step >= 1 && Represents(step, log, stats, windows, latest, begin)
    ensures latest == StartOf(step, LatestNo(step, log))
    ensures Opened(windows, LatestNo(step, log), FrameNo(step, e.sec)) != []
  {
    HistogramGrows(step, log, e);
  }

  lemma RepresentsNext(step: nat, log: seq<Event>, stats: map<string, int>, windows: seq<TimeWindow>,
                       latest: nat, begin: nat, e: Event)
    requires step >= 1 && Represents(step, log, stats, windows, latest, begin)
    ensures var cur, f := LatestNo(step, log), FrameNo(step, e.sec);
            && Opened(windows, cur, f) != []
            && Represents(step, log + [e], Bump(stats, e.code), Placed(windows, cur, f, e.code, e.duration),
                          StartOf(step, if f > cur then f else cur), if cur == 0 then StartOf(step, f) else begin)
  {
    hide Histogram, Tally, Bump, Opened, AddTo, LatestNo, BaseNo, Slot, WindowCount, FrameNo, StartOf;
    TallyNext(log, e);
    HistogramGrows(step, log, e);
    FramesNext(step, log, e);
  }

  lemma TallyNext(log: seq<Event>, e: Event)
    ensures Tally(log + [e]) == Bump(Tally(log), e.code)
  {
    hide Bump;
    assert Front(log + [e]) == log && Last(log + [e]) == e;
  }

  lemma FramesNext(step: nat, log: seq<Event>, e: Event)
    requires step >= 1
    ensures var cur, f := LatestNo(step, log), FrameNo(step, e.sec);
            && LatestNo(step, log + [e]) == (if f > cur then f else cur)
            && BaseNo(step, log + [e]) == (if cur == 0 then f else BaseNo(step, log))
  {
    hide LatestNo, BaseNo, FrameNo, Slot, WindowCount;
    SlotStep(step, log, e);
  }

  class ResultSet {
    var stats: map<string, int>
    var timestats: seq<TimeWindow>
    var options: ResultOptions
    var remaining: int
    var winBegin: nat
    var curWintime: nat
    ghost var log: seq<Event>  // the results recorded since clear()

    ghost function Step(): nat
      reads this
      ensures Step() >= 1
    {
      StepOf(options.timeres)
    }

    ghost predicate Valid()
      reads this
    {
      && Represents(Step(), log, stats, timestats, curWintime, winBegin)
      && (log != [] ==> options.timeres > 0)
    }

    constructor ()
      ensures Valid() && log == [] && remaining == 0
      ensures options == ResultOptions(0, 0)
    {
      options := ResultOptions(0, 0);
      stats, timestats, remaining, winBegin, curWintime := map[], [], 0, 0, 0;
      log := [];
    }

    method Clear()
      modifies this
      ensures Valid() && log == [] && remaining == 0 && options == old(options)
    {
      stats, timestats, remaining, winBegin, curWintime := map[], [], 0, 0, 0;
      log := [];
    }

    /** The window advance of setRescode, for a result in frame f. */
    method OpenWindow(frame: nat, ghost cur: nat, ghost f: nat)
      requires options.timeres >= 1
      requires curWintime == cur * options.timeres && frame == f * options.timeres
      modifies this`timestats, this`curWintime, this`winBegin
      ensures timestats == Opened(old(timestats), cur, f)
      ensures curWintime == (if f > cur then f else cur) * options.timeres
      ensures winBegin == if cur == 0 then frame else old(winBegin)
    {
      hide Represents;
      ghost var h, step := timestats, options.timeres;
      ProductZero(cur, step);
      ProductOrder(cur, f, step);
      if curWintime == 0 {
        curWintime := frame;
        winBegin := frame;
        timestats := timestats + [FRESH];
      } else if curWintime < frame {
        ghost var k := 0;
        while curWintime < frame
          invariant cur + k <= f && curWintime == (cur + k) * step
          invariant winBegin == old(winBegin)
          invariant timestats == h + seq(k, _ => GAP)
          decreases frame - curWintime
        {
          ProductOrder(cur + k, f, step);
          ProductNext(cur + k, step);
          timestats := timestats + [GAP];
          curWintime := curWintime + options.timeres;
          k := k + 1;
        }
        ProductOrder(cur + k, f, step);
        var last := |timestats| - 1;
        timestats := timestats[last := timestats[last].(min := U32 - 1)];
      }
    }

    /** The counters of the window that is now last. */
    method AddToLast(code: string, duration: int)
      requires timestats != []
      modifies this`timestats
      ensures timestats == old(timestats)[|old(timestats)| - 1 := AddTo(Last(old(timestats)), code, duration)]
    {
      var back := |timestats| - 1;
      var d := duration % U32;
      var win := timestats[back];
      timestats := timestats[back := win.(
        count := win.count + 1,
        total := (win.total + d) % U32,
        min := if d < win.min then d else win.min,
        max := if d > win.max then d else win.max,
        durations := win.durations + [duration],
        ec := Bump(win.ec, code))];
    }

    /** The first lines of setRescode: the counters, and a resolution of 0. */
    method CountResult(code: string)
      modifies this`stats, this`remaining, this`options
      ensures stats == Bump(old(stats), code) && remaining == old(remaining) - 1
      ensures options == old(options).(timeres := StepOf(old(options).timeres))
    {
      stats := Bump(stats, code);
      remaining := remaining - 1;
      if options.timeres == 0 {
        options := options.(timeres := 1);
      }
    }

    /** The rest of it: the window of the result and what is added to it. */
    method RecordIn(code: string, now: Tick, ghost cur: nat)
      requires options.timeres >= 1 && curWintime == StartOf(options.timeres, cur)
      requires Opened(timestats, cur, FrameNo(options.timeres, now.sec)) != []
      modifies this`timestats, this`curWintime, this`winBegin
      ensures var step := options.timeres;
              var f := FrameNo(step, now.sec);
              && Opened(old(timestats), cur, f) != []
              && timestats == Placed(old(timestats), cur, f, code, now.duration)
              && curWintime == StartOf(step, if f > cur then f else cur)
              && winBegin == if cur == 0 then StartOf(step, f) else old(winBegin)
    {
      hide Opened, AddTo, FrameNo;
      FrameStart(options.timeres, now.sec);
      OpenWindow(now.sec - now.sec % options.timeres, cur, FrameNo(options.timeres, now.sec));
      AddToLast(code, now.duration);
    }

    method SetRescode(err: ErrorCode, now: Tick)
      requires Valid()
      modifies this
      ensures Valid() && log == old(log) + [EventOf(err, now)]
      ensures remaining == old(remaining) - 1
      ensures options == old(options).(timeres := StepOf(old(options).timeres))
    {
      ghost var step, cur, e := Step(), LatestNo(Step(), log), EventOf(err, now);
      RepresentsTimes(step, log, stats, timestats, curWintime, winBegin, e);
      StepOfTwice(options.timeres);
      hide Represents, LatestNo, FrameNo, Opened, Placed, AddTo, Bump, CodeText, StartOf, StepOf;
      var code := CodeText(err);
      CountResult(code);
      RecordIn(code, now, cur);
      log := log + [e];
      RepresentsNext(step, old(log), old(stats), old(timestats), old(curWintime), old(winBegin), e);
      assert Step() == step;
    }

    /** m_pFactor is a static member, which every worker that creates a ResultSet
        sets: `factor` is what it holds when window w is reported. */
    method ResultsJson(factor: nat -> int) returns (report: Report)
      requires Valid()
      ensures report == ReportOf(options.timeres, log, factor)
    {
      if options.timeres == 0 {
        return Report(stats, None);
      }
      var windows: seq<WindowReport> := [];
      var i := 0;
      while i < |timestats|
        invariant i <= |timestats| && |windows| == i
        invariant forall w :: 0 <= w < i ==> windows[w] == ReportWindow(timestats[w], factor(w))
      {
        windows := windows + [ReportWindow(timestats[i], factor(i))];
        i := i + 1;
      }
      report := Report(stats, Some(Timings(winBegin, options.timeres, windows)));
      assert windows == ReportOf(options.timeres, log, factor).timings.value.windows;
    }
  }

  lemma ProductOrder(a: nat, b: nat, c: nat)
    requires c >= 1
    ensures a < b <==> a * c < b * c
  {
    if a < b {
      MulLess(a, b, c);
    } else {
      MulLe(b, a, c);
    }
  }

  lemma ProductNext(a: nat, c: nat)
    ensures (a + 1) * c == a * c + c
  {
  }

  lemma ProductZero(a: nat, c: nat)
    requires c >= 1
    ensures a * c == 0 <==> a == 0
  {
    ProductOrder(0, a, c);
  }

  /* ---- what a report says about the durations ---- */

  /** These durations lose nothing in the conversion to unsigned int. */
  ghost predicate Unsigned32(log: seq<Event>) {
    forall k :: 0 <= k < |log| ==> 0 <= log[k].duration < U32
  }

  /** What time_total would be without overflow. */
  function UnsignedTotal(log: seq<Event>): nat {
    if log == [] then 0 else UnsignedTotal(Front(log)) + Unsigned(Last(log).duration)
  }

  lemma {:induction false} TotalWraps(log: seq<Event>)
    ensures Total(log) % U32 == UnsignedTotal(log) % U32
  {
    if log != [] {
      TotalWraps(Front(log));
      WrapAdd(Total(Front(log)), UnsignedTotal(Front(log)), Last(log).duration);
    }
  }

  lemma WrapAdd(a: int, b: int, d: int)
    requires a % U32 == b % U32
    ensures (a + d) % U32 == (b + d % U32) % U32
  {
  }

  lemma {:induction false} TotalBounds(log: seq<Event>, lo: nat, hi: nat)
    requires forall k :: 0 <= k < |log| ==> lo <= Unsigned(log[k].duration) <= hi
    ensures |log| * lo <= UnsignedTotal(log) <= |log| * hi
  {
    if log != [] {
      assert Last(log) == log[|log| - 1];
      TotalBounds(Front(log), lo, hi);
      assert |log| * lo == (|log| - 1) * lo + lo && |log| * hi == (|log| - 1) * hi + hi;
    }
  }

  lemma WrapsDown(total: nat)
    ensures total % U32 <= total && (total < U32 ==> total % U32 == total)
  {
  }

  lemma DivAtMost(total: nat, n: nat, hi: nat)
    requires n >= 1 && total <= n * hi
    ensures total / n <= hi
  {
    var q, r := DivMod(total, n);
    if hi < q {
      MulLess(hi, q, n);
    }
  }

  lemma DivAtLeast(total: nat, n: nat, lo: nat)
    requires n >= 1 && n * lo <= total
    ensures lo <= total / n
  {
    var q, r := DivMod(total, n);
    if q < lo {
      MulLe(q + 1, lo, n);
    }
  }

  /** In a reported window with results the average is no more than the maximum,
      and no less than the minimum unless the total overflows. The percentile is
      between minimum and maximum if the durations fit 32 bits, for factors from 50
      to 100 whose product with the number of results is an int. */
  lemma ReportSound(timeres: nat, log: seq<Event>, factor: nat -> int, w: nat)
    requires var step := StepOf(timeres); w < WindowCount(step, log) && Picks(step, log, w) != []
    ensures var win, p := ReportOf(timeres, log, factor).timings.value.windows[w], factor(w);
            var picks := Picks(StepOf(timeres), log, w);
            && win.count > 0
            && win.avg <= win.max
            && (UnsignedTotal(picks) < U32 ==> win.min <= win.avg)
            && (Unsigned32(picks) && 50 <= p <= 100 && win.count * p < 0x8000_0000 ==>
                  win.percentile.Some? && win.min <= win.percentile.value <= win.max)
  {
    var step := StepOf(timeres);
    var picks, win := Picks(step, log, w), Histogram(step, log)[w];
    WindowConsistency(step, log, w);
    hide *;
    ReportedWindows(timeres, log, factor);
    WindowSound(picks, win, factor(w));
    assert ReportOf(timeres, log, factor).timings.value.windows[w] == ReportWindow(win, factor(w));
  }

  lemma WindowSound(picks: seq<Event>, win: TimeWindow, p: int)
    requires picks != [] && win.total == Total(picks) % U32 && win.count == |picks| == |win.durations|
    requires forall k :: 0 <= k < |picks| ==> win.durations[k] == picks[k].duration
    requires forall k :: 0 <= k < |picks| ==> win.min <= Unsigned(picks[k].duration) <= win.max
    ensures var report := ReportWindow(win, p);
            && report.count > 0
            && report.avg <= report.max
            && (UnsignedTotal(picks) < U32 ==> report.min <= report.avg)
            && (Unsigned32(picks) && 50 <= p <= 100 && report.count * p < 0x8000_0000 ==>
                  report.percentile.Some? && report.min <= report.percentile.value <= report.max)
  {
    hide Total, UnsignedTotal, Percentile;
    WindowOrdered(picks, win);
    if Unsigned32(picks) && 50 <= p <= 100 && win.count * p < 0x8000_0000 {
      PercentileBetween(win.durations, win.min, win.max, p);
    }
  }

  lemma WindowOrdered(picks: seq<Event>, win: TimeWindow)
    requires picks != [] && win.total == Total(picks) % U32 && win.count == |picks|
    requires forall k :: 0 <= k < |picks| ==> win.min <= Unsigned(picks[k].duration) <= win.max
    ensures win.total / win.count <= win.max
    ensures UnsignedTotal(picks) < U32 ==> win.min <= win.total / win.count
  {
    TotalWraps(picks);
    TotalBounds(picks, win.min, win.max);
    hide Total, UnsignedTotal;
    WrapsDown(UnsignedTotal(picks));
    DivAtMost(win.total, win.count, win.max);
    if UnsignedTotal(picks) < U32 {
      DivAtLeast(win.total, win.count, win.min);
    }
  }

  lemma PercentileBetween(durations: seq<int>, lo: int, hi: int, p: int)
    requires durations != [] && 50 <= p <= 100 && |durations| * p < 0x8000_0000
    requires forall k :: 0 <= k < |durations| ==> lo <= durations[k] <= hi
    ensures Percentile(durations, p).Some? && lo <= Percentile(durations, p).value <= hi
  {
    DefinedFor(durations, p);
    MulLe(1, p, |durations|);
    if |durations| >= 2 {
      OrderStatistic(durations, p);
    }
  }
}
