/** What a report says, in terms of the outcomes and clock readings of the run. */
module Reports {
  import opened Arith
  import opened Prelude
  import opened Timeline
  import opened Percentiles
  import opened Results
  import opened Pipeline

  /* ---- counters ---- */

  /** How many results with these error codes are counted under the text: the
      failures with this message, and under "success" the successes as well. */
  function CountedUnder(codes: seq<ErrorCode>, text: string): nat {
    multiset(codes)[Failure(text)] + if text == "success" then multiset(codes)[Success] else 0
  }

  /** The error codes of the first n submissions. */
  function Outcomes(env: Environment, n: nat): seq<ErrorCode> {
    seq(n, k requires k >= 0 => env.outcome(k))
  }

  lemma CountedNext(codes: seq<ErrorCode>, ec: ErrorCode, text: string)
    ensures CountedUnder(codes + [ec], text)
            == CountedUnder(codes, text) + if ec == Failure(text) || (ec == Success && text == "success") then 1 else 0
  {
    assert multiset(codes + [ec]) == multiset(codes) + multiset{ec};
  }

  /** Results are counted under the texts of their error codes. */
  lemma {:induction false} CountsAre(log: seq<Event>, codes: seq<ErrorCode>, text: string)
    requires |log| == |codes| && forall k :: 0 <= k < |log| ==> log[k].code == CodeText(codes[k])
    ensures Count(log, Only(text)) == CountedUnder(codes, text)
  {
    if log != [] {
      var front := Front(codes);
      CountsAre(Front(log), front, text);
      assert codes == front + [Last(codes)];
      CountedNext(front, Last(codes), text);
    }
  }

  /** The k-th result of a run: its error code, and the clock when it was recorded. */
  lemma RecordedAt(env: Environment, n: nat, k: nat)
    requires k < n
    ensures Outcomes(env, n)[k] == env.outcome(k)
    ensures var e := Recorded(env, n)[k];
            && e.code == CodeText(env.outcome(k))
            && e.sec == env.clock(k).sec && e.duration == env.clock(k).duration
  {
  }

  /** The counters of a run, text by text, from the error codes of its submissions. */
  lemma StatsAre(env: Environment, n: nat, text: string)
    ensures Entry(Tally(Recorded(env, n)), text) == CountedUnder(Outcomes(env, n), text)
    ensures text in Tally(Recorded(env, n)) <==> CountedUnder(Outcomes(env, n), text) > 0
  {
    TallyCounts(Recorded(env, n), text);
    var log, codes := Recorded(env, n), Outcomes(env, n);
    forall k: nat | k < n
      ensures log[k].code == CodeText(codes[k])
    {
      RecordedAt(env, n, k);
    }
    CountsAre(log, codes, text);
  }

  /* ---- the results of one window ---- */

  /** The results in window w, by number and in order. */
  function Members(step: nat, env: Environment, n: nat, w: nat): seq<nat>
    requires step >= 1
  {
    if n == 0 then []
    else Members(step, env, n - 1, w) + if Slot(step, Recorded(env, n)) == w then [n - 1] else []
  }

  ghost predicate Increasing(ks: seq<nat>) {
    forall i, j :: 0 <= i < j < |ks| ==> ks[i] < ks[j]
  }

  lemma {:induction false} MembersAre(step: nat, env: Environment, n: nat, w: nat)
    requires step >= 1
    ensures var ks := Members(step, env, n, w);
            && Increasing(ks)
            && (forall i :: 0 <= i < |ks| ==> ks[i] < n)
            && (forall k: nat :: k in ks <==> k < n && Slot(step, Recorded(env, k + 1)) == w)
  {
    hide Slot;
    if n > 0 {
      MembersAre(step, env, n - 1, w);
    }
  }

  lemma RecordedFront(env: Environment, n: nat)
    requires n > 0
    ensures Recorded(env, n) != [] && Front(Recorded(env, n)) == Recorded(env, n - 1)
    ensures Last(Recorded(env, n)) == EventOf(env.outcome(n - 1), env.clock(n - 1))
  {
  }

  /** The error codes of these results. */
  function OutcomesOf(env: Environment, ks: seq<nat>): seq<ErrorCode> {
    seq(|ks|, i requires 0 <= i < |ks| => env.outcome(ks[i]))
  }

  /** The durations of these results. */
  function DurationsOf(env: Environment, ks: seq<nat>): seq<int> {
    seq(|ks|, i requires 0 <= i < |ks| => env.clock(ks[i]).duration)
  }

  /** These events are those of these results. */
  ghost predicate EventsAre(env: Environment, ks: seq<nat>, picks: seq<Event>) {
    && |picks| == |ks|
    && forall i :: 0 <= i < |ks| ==> picks[i] == EventOf(env.outcome(ks[i]), env.clock(ks[i]))
  }

  /** The results picked for a window are those of its members, in order. */
  lemma {:induction false} PicksAre(step: nat, env: Environment, n: nat, w: nat)
    requires step >= 1
    ensures EventsAre(env, Members(step, env, n, w), Picks(step, Recorded(env, n), w))
  {
    if n > 0 {
      RecordedFront(env, n);
      PicksAre(step, env, n - 1, w);
      hide Slot, Recorded;
    }
  }

  /* ---- a reported window ---- */

  function SumOf(durations: seq<int>): int {
    if durations == [] then 0 else SumOf(Front(durations)) + Last(durations)
  }

  lemma {:induction false} TotalIsSum(log: seq<Event>)
    ensures Total(log) == SumOf(Durations(log))
  {
    if log != [] {
      TotalIsSum(Front(log));
      assert Front(Durations(log)) == Durations(Front(log));
    }
  }

  /** A window of a report, from the durations and the counts of its results. */
  ghost predicate Reports(win: WindowReport, durations: seq<int>, p: int) {
    && win.count == |durations|
    && win.percentile == Percentile(durations, p)
    && (durations == [] ==> win.min == win.max == win.avg == 0 && win.percentile == Some(0) && win.ec == map[])
    && (durations != [] ==>
          && win.avg * |durations| <= SumOf(durations) % 0x1_0000_0000 < (win.avg + 1) * |durations|
          && (forall i :: 0 <= i < |durations| ==> win.min <= durations[i] % 0x1_0000_0000 <= win.max)
          && (exists i :: 0 <= i < |durations| && win.min == durations[i] % 0x1_0000_0000)
          && (exists i :: 0 <= i < |durations| && win.max == durations[i] % 0x1_0000_0000))
  }

  lemma QuotientBounds(total: nat, n: nat)
    requires n >= 1
    ensures total / n * n <= total < (total / n + 1) * n
  {
    var q, r := DivMod(total, n);
    assert (q + 1) * n == q * n + n;
  }

  lemma WindowReports(picks: seq<Event>, win: TimeWindow, p: int)
    requires win == WindowOf(picks)
    ensures Reports(ReportWindow(win, p), Durations(picks), p)
  {
    ReportedFields(win, p);
    if picks == [] {
      EmptyWindow(p);
    } else {
      FilledWindow(picks, win);
      AttainedBounds(picks, win);
      QuotientBounds(win.total, win.count);
      hide *;
      FilledReports(ReportWindow(win, p), Durations(picks), p);
    }
  }

  lemma FilledReports(win: WindowReport, ds: seq<int>, p: int)
    requires ds != [] && win.count == |ds| && win.percentile == Percentile(ds, p)
    requires win.avg * |ds| <= SumOf(ds) % 0x1_0000_0000 < (win.avg + 1) * |ds|
    requires forall i :: 0 <= i < |ds| ==> win.min <= ds[i] % 0x1_0000_0000 <= win.max
    requires exists i :: 0 <= i < |ds| && win.min == ds[i] % 0x1_0000_0000
    requires exists i :: 0 <= i < |ds| && win.max == ds[i] % 0x1_0000_0000
    ensures Reports(win, ds, p)
  {
    hide Percentile, SumOf;
  }

  lemma ReportedFields(win: TimeWindow, p: int)
    ensures var report := ReportWindow(win, p);
            && report.count == win.count && report.min == win.min && report.max == win.max && report.ec == win.ec
            && report.avg == (if win.count == 0 then 0 else win.total / win.count)
            && report.percentile == Percentile(win.durations, p)
  {
    hide Percentile;
  }

  lemma FilledWindow(picks: seq<Event>, win: TimeWindow)
    requires picks != [] && win == WindowOf(picks)
    ensures win.count == |Durations(picks)| > 0 && win.durations == Durations(picks)
    ensures win.total == SumOf(Durations(picks)) % 0x1_0000_0000
  {
    DurationsAt(picks);
    TotalIsSum(picks);
  }

  lemma EmptyWindow(p: int)
    ensures WindowOf([]) == TimeWindow(0, 0, 0, [], 0, map[]) && Durations([]) == []
    ensures Percentile([], p) == Some(0)
  {
  }

  lemma AttainedBounds(picks: seq<Event>, win: TimeWindow)
    requires picks != [] && win == WindowOf(picks)
    ensures var ds := Durations(picks);
            && |ds| == |picks|
            && (forall i :: 0 <= i < |ds| ==> win.min <= ds[i] % 0x1_0000_0000 <= win.max)
            && (exists i :: 0 <= i < |ds| && win.min == ds[i] % 0x1_0000_0000)
            && (exists i :: 0 <= i < |ds| && win.max == ds[i] % 0x1_0000_0000)
  {
    DurationsAt(picks);
    LeastAndGreatest(picks);
    hide Least, Greatest, Durations, Total, Tally;
    var i :| 0 <= i < |picks| && win.min == Unsigned(picks[i].duration);
    var j :| 0 <= j < |picks| && win.max == Unsigned(picks[j].duration);
    assert Durations(picks)[i] == picks[i].duration && Durations(picks)[j] == picks[j].duration;
  }

  /** Every window of the report of a run: which results it stands for, and what
      each field says about them. */
  lemma WindowOfRun(env: Environment, timeres: nat, n: nat, factor: nat -> int, w: nat) returns (ks: seq<nat>)
    requires w < WindowCount(StepOf(timeres), Recorded(env, n))
    ensures Increasing(ks)
    ensures forall k: nat :: k in ks <==> k < n && Slot(StepOf(timeres), Recorded(env, k + 1)) == w
    ensures var report := ReportOf(timeres, Recorded(env, n), factor);
            && report.timings.Some? && w < |report.timings.value.windows|
            && var win := report.timings.value.windows[w];
            && Reports(win, DurationsOf(env, ks), factor(w))
            && forall text: string :: Entry(win.ec, text) == CountedUnder(OutcomesOf(env, ks), text)
  {
    var step, log := StepOf(timeres), Recorded(env, n);
    ks := Members(step, env, n, w);
    MembersAre(step, env, n, w);
    PicksAre(step, env, n, w);
    var picks, win := WindowPicks(step, log, w);
    hide *;
    ReportedWindows(timeres, log, factor);
    WindowReports(picks, win, factor(w));
    PickFields(env, ks, picks);
    ReportedFields(win, factor(w));
    forall text: string
      ensures Entry(win.ec, text) == CountedUnder(OutcomesOf(env, ks), text)
    {
      CodesOfWindow(env, ks, picks, win, text);
    }
  }

  lemma WindowPicks(step: nat, log: seq<Event>, w: nat) returns (picks: seq<Event>, win: TimeWindow)
    requires step >= 1 && w < WindowCount(step, log)
    ensures log != [] && w < |Histogram(step, log)|
    ensures picks == Picks(step, log, w) && win == Histogram(step, log)[w] == WindowOf(picks)
  {
    picks, win := Picks(step, log, w), Histogram(step, log)[w];
  }

  lemma CodesOfWindow(env: Environment, ks: seq<nat>, picks: seq<Event>, win: TimeWindow, text: string)
    requires EventsAre(env, ks, picks) && win == WindowOf(picks)
    ensures Entry(win.ec, text) == CountedUnder(OutcomesOf(env, ks), text)
  {
    CountsAre(picks, OutcomesOf(env, ks), text);
    TallyCounts(picks, text);
    assert win.ec == Tally(picks);
  }

  lemma PickFields(env: Environment, ks: seq<nat>, picks: seq<Event>)
    requires EventsAre(env, ks, picks)
    ensures Durations(picks) == DurationsOf(env, ks)
  {
    DurationsAt(picks);
  }

  /* ---- the report as a whole ---- */

  /** The counters are those of all results. There are timings unless neither a
      resolution was asked for nor anything recorded; they start with the frame of
      the first result that is not in frame zero, have that resolution, or 1, and all
      windows of the run. */
  lemma ReportOfRun(env: Environment, timeres: nat, n: nat, factor: nat -> int)
    ensures var report := ReportOf(timeres, Recorded(env, n), factor);
            && report.stats == Tally(Recorded(env, n))
            && (report.timings.Some? <==> timeres > 0 || n > 0)
            && (report.timings.Some? ==> TimingsAre(env, timeres, n, report.timings.value))
  {
    hide TimingsAre, Histogram, WindowCount, Tally, ReportWindow;
    if timeres > 0 || n > 0 {
      TimingsOfRun(env, timeres, n, factor);
    }
  }

  ghost predicate TimingsAre(env: Environment, timeres: nat, n: nat, timings: Timings) {
    && timings.step == (if timeres == 0 then 1 else timeres)
    && |timings.windows| == WindowCount(timings.step, Recorded(env, n))
    && ((forall k: nat :: k < n ==> env.clock(k).sec < timings.step) ==> timings.base == 0)
    && (forall k: nat :: k < n && env.clock(k).sec >= timings.step
          && (forall j: nat :: j < k ==> env.clock(j).sec < timings.step)
          ==> timings.base == env.clock(k).sec - env.clock(k).sec % timings.step)
  }

  lemma TimingsOfRun(env: Environment, timeres: nat, n: nat, factor: nat -> int)
    requires timeres > 0 || n > 0
    ensures var timings := ReportOf(timeres, Recorded(env, n), factor).timings;
            timings.Some? && TimingsAre(env, timeres, n, timings.value)
  {
    hide Leading, Histogram, WindowCount, Tally, FrameNo, ReportWindow;
    var step, log := StepOf(timeres), Recorded(env, n);
    LeadingMeaning(step, log);
    ClockFrames(env, n, step);
    var z := Leading(step, log);
    if z < n {
      FrameStart(step, log[z].sec);
    }
  }

  lemma ClockFrames(env: Environment, n: nat, step: nat)
    requires step >= 1
    ensures forall k: nat :: k < n ==> Recorded(env, n)[k].sec == env.clock(k).sec
    ensures forall k: nat :: k < n ==> (FrameNo(step, Recorded(env, n)[k].sec) == 0 <==> env.clock(k).sec < step)
  {
    hide FrameNo;
    forall k: nat | k < n
      ensures Recorded(env, n)[k].sec == env.clock(k).sec
      ensures FrameNo(step, Recorded(env, n)[k].sec) == 0 <==> env.clock(k).sec < step
    {
      FrameZero(step, Recorded(env, n)[k].sec);
    }
  }
}
