/** One operation of a worker under cancellation by the control thread, as a
    state machine: every read or write of shared state is a step, and a cancel
    step may come between any two. The k-th submission is the number k. */
module Interleaving {
  import opened Arith
  import opened Prelude

  /** Where the worker is: before `do_cancel = false`, at the loop guard, about
      to push a future, about to count it, inside drainPendingFutures (`last`
      from collect_result), or returned. */
  datatype PC = Resetting | Guarding | Submitting | Counting | Draining(next: nat, last: bool) | Finished

  datatype Config = Config(iterwait: nat, count: nat, continuous: bool)

  /** `mark` is not program state: it holds how many items were submitted when
      the first cancel step after the reset landed. */
  datatype State = State(
    pc: PC, cancel: bool, pending: seq<nat>, remaining: int, recorded: seq<nat>, submitted: nat, mark: Option<nat>)

  predicate Init(s: State) {
    s.pc == Resetting && s.pending == [] && s.remaining == 0 && s.recorded == [] && s.submitted == 0 && s.mark == None
  }

  function WorkerStep(c: Config, s: State): State
    requires s.pc != Finished
  {
    match s.pc
    case Resetting => s.(cancel := false, pc := Guarding)
    case Guarding =>
      if (!c.continuous && s.submitted >= c.count) || s.cancel then
        s.(pc := if s.remaining == 0 then Finished else Draining(0, true))
      else s.(pc := Submitting)
    case Submitting => s.(pending := s.pending + [s.submitted], submitted := s.submitted + 1, pc := Counting)
    case Counting =>
      var total := s.remaining + 1;
      s.(remaining := total,
         pc := if c.iterwait == 0 || 0 < total < c.iterwait then Guarding else Draining(0, false))
    case Draining(i, last) =>
      if i < |s.pending| then
        s.(recorded := s.recorded + [s.pending[i]], remaining := s.remaining - 1, pc := Draining(i + 1, last))
      else s.(pending := [], pc := if last then Finished else Guarding)
  }

  /** cancelCurrent, by another thread. */
  function CancelStep(s: State): State {
    s.(cancel := true, mark := if s.pc == Resetting || s.mark.Some? then s.mark else Some(s.submitted))
  }

  predicate Next(c: Config, s: State, s': State) {
    s' == CancelStep(s) || (s.pc != Finished && s' == WorkerStep(c, s))
  }

  /** A run of worker and cancel steps in any order. */
  predicate Run(c: Config, t: seq<State>) {
    t != [] && forall i :: 0 < i < |t| ==> Next(c, t[i - 1], t[i])
  }

  /* ---- what every reachable state satisfies ---- */

  function Numbers(n: nat): seq<nat> {
    seq(n, k requires k >= 0 => k)
  }

  /** How many of the pending futures the current drain has read. */
  function Read(s: State): nat {
    if s.pc.Draining? then s.pc.next else 0
  }

  /** Without iterwait everything stays pending until the final drain. With it, a
      batch is drained as soon as it is full and not before, so the futures pending
      at the loop guard are those submitted since the last multiple of iterwait. */
  ghost predicate InBatches(c: Config, s: State) {
    if c.iterwait == 0 then
      && (s.pc != Finished ==> |s.pending| == s.submitted)
      && (s.pc.Draining? ==> s.pc.last)
    else
      match s.pc
      case Resetting | Guarding | Submitting => |s.pending| == s.submitted % c.iterwait
      case Counting => s.submitted > 0 && |s.pending| == (s.submitted - 1) % c.iterwait + 1
      case Draining(_, last) =>
        if last then |s.pending| == s.submitted % c.iterwait
        else |s.pending| == c.iterwait && s.submitted % c.iterwait == 0
      case Finished => true
  }

  ghost predicate Invariant(c: Config, s: State) {
    && Read(s) <= |s.pending|
    // results are recorded in submission order, and the unread futures follow
    && s.recorded + s.pending[Read(s)..] == Numbers(s.submitted)
    && s.remaining == |s.pending| - Read(s) - (if s.pc == Counting then 1 else 0)
    && (s.pc == Counting ==> s.pending != [])
    && InBatches(c, s)
    && (s.pc.Draining? ==> s.pending != [])
    && (!c.continuous ==> s.submitted <= c.count && (s.pc == Submitting ==> s.submitted < c.count))
    && (s.pc == Resetting ==> s.pending == [] && s.submitted == 0 && s.mark == None)
    // a cancel step after the reset lets at most one more item through
    && (s.pc != Resetting ==> (s.cancel <==> s.mark.Some?))
    && (s.mark.Some? ==> s.submitted <= s.mark.value + (if s.pc == Submitting then 0 else 1))
    // the loop ends only at the end of the data or cancelled
    && (s.pc == Finished || (s.pc.Draining? && s.pc.last) ==>
          s.mark.Some? || (!c.continuous && s.submitted == c.count))
    && (s.pc == Finished ==> s.pending == [])
  }

  lemma CancelInvariant(c: Config, s: State)
    requires Invariant(c, s)
    ensures Invariant(c, CancelStep(s))
  {
  }

  lemma GuardInvariant(c: Config, s: State)
    requires Invariant(c, s) && s.pc in {Resetting, Guarding}
    ensures Invariant(c, WorkerStep(c, s))
  {
    assert s.pending[0..] == s.pending;
  }

  lemma BatchFull(w: nat, n: nat)
    requires w > 0 && n > 0
    ensures var p := (n - 1) % w + 1;
            p <= w && n % w == if p == w then 0 else p
  {
    ModStep(n - 1, w);
  }

  lemma CountInvariant(c: Config, s: State)
    requires Invariant(c, s) && s.pc == Counting
    ensures Invariant(c, WorkerStep(c, s))
  {
    hide Numbers;
    assert s.pending[0..] == s.pending;
    CountInBatches(c, s);
    hide InBatches;
  }

  lemma CountInBatches(c: Config, s: State)
    requires InBatches(c, s) && s.pc == Counting && s.remaining == |s.pending| - 1
    ensures InBatches(c, WorkerStep(c, s))
  {
    if c.iterwait > 0 {
      BatchFull(c.iterwait, s.submitted);
    }
  }

  lemma SubmitInvariant(c: Config, s: State)
    requires Invariant(c, s) && s.pc == Submitting
    ensures Invariant(c, WorkerStep(c, s))
  {
    assert Numbers(s.submitted + 1) == Numbers(s.submitted) + [s.submitted];
    assert s.pending[0..] == s.pending;
  }

  lemma DrainInvariant(c: Config, s: State)
    requires Invariant(c, s) && s.pc.Draining?
    ensures Invariant(c, WorkerStep(c, s))
  {
    if s.pc.next < |s.pending| {
      ReadInvariant(c, s);
    } else {
      ClearInvariant(c, s);
    }
  }

  lemma ReadInvariant(c: Config, s: State)
    requires Invariant(c, s) && s.pc.Draining? && s.pc.next < |s.pending|
    ensures Invariant(c, WorkerStep(c, s))
  {
    hide Numbers;
    var i := s.pc.next;
    OneRead(s.recorded, s.pending, i);
  }

  lemma OneRead(recorded: seq<nat>, pending: seq<nat>, i: nat)
    requires i < |pending|
    ensures (recorded + [pending[i]]) + pending[i + 1..] == recorded + pending[i..]
  {
    assert pending[i..] == [pending[i]] + pending[i + 1..];
  }

  lemma ClearInvariant(c: Config, s: State)
    requires Invariant(c, s) && s.pc.Draining? && s.pc.next >= |s.pending|
    ensures Invariant(c, WorkerStep(c, s))
  {
    hide Numbers;
    var s' := WorkerStep(c, s);
    assert s.pending[Read(s)..] == [] && s'.pending[Read(s')..] == [];
    assert s.recorded + [] == s.recorded;
  }

  lemma NextInvariant(c: Config, s: State, s': State)
    requires Invariant(c, s) && Next(c, s, s')
    ensures Invariant(c, s')
  {
    hide Invariant, WorkerStep;
    if s' == CancelStep(s) {
      CancelInvariant(c, s);
    } else if s.pc == Submitting {
      SubmitInvariant(c, s);
    } else if s.pc.Draining? {
      DrainInvariant(c, s);
    } else if s.pc == Counting {
      CountInvariant(c, s);
    } else {
      GuardInvariant(c, s);
    }
  }

  lemma RunFront(c: Config, t: seq<State>) returns (front: seq<State>)
    requires Run(c, t) && |t| > 1
    ensures front == t[..|t| - 1] && Run(c, front) && Next(c, t[|t| - 2], t[|t| - 1])
  {
    front := t[..|t| - 1];
    hide Next;
  }

  lemma {:induction false} Reachable(c: Config, t: seq<State>)
    requires Run(c, t) && Init(t[0])
    ensures forall i :: 0 <= i < |t| ==> Invariant(c, t[i])
  {
    if |t| > 1 {
      var front := RunFront(c, t);
      Reachable(c, front);
      assert Next(c, t[|t| - 2], t[|t| - 1]);
      assert Invariant(c, front[|t| - 2]);
      NextInvariant(c, t[|t| - 2], t[|t| - 1]);
    }
  }

  /** In every interleaving, at most iterwait futures are in flight at any time,
      or without iterwait (and so with a finite dataset) as many as items. */
  lemma BoundedInFlight(c: Config, t: seq<State>, k: nat)
    requires Run(c, t) && Init(t[0]) && k < |t|
    requires c.continuous ==> c.iterwait > 0
    ensures |t[k].pending| <= if c.iterwait > 0 then c.iterwait else c.count
  {
    Reachable(c, t);
    var s := t[k];
    assert Invariant(c, s);
  }

  /** A drain in the loop comes exactly when the number of submissions has reached
      a multiple of iterwait, with the futures of one batch; never without iterwait. */
  lemma DrainsFullBatches(c: Config, t: seq<State>, k: nat)
    requires Run(c, t) && Init(t[0]) && 0 < k < |t| && t[k - 1].pc == Counting && t[k] == WorkerStep(c, t[k - 1])
    ensures t[k].pc == Draining(0, false) <==> c.iterwait > 0 && t[k].submitted % c.iterwait == 0
    ensures t[k].pc == Draining(0, false) ==> |t[k].pending| == c.iterwait
    ensures t[k].pc != Draining(0, false) ==> t[k].pc == Guarding
  {
    Reachable(c, t);
    assert Invariant(c, t[k - 1]);
    if c.iterwait > 0 {
      BatchFull(c.iterwait, t[k].submitted);
    }
  }

  /** The worker leaves its loop at the guard exactly when a finite dataset is at its
      end or a cancel step has come since the reset, and then drains what is pending,
      or returns at once if nothing is. */
  lemma LeavesLoop(c: Config, t: seq<State>, k: nat)
    requires Run(c, t) && Init(t[0]) && 0 < k < |t| && t[k - 1].pc == Guarding && t[k] == WorkerStep(c, t[k - 1])
    ensures t[k].pc == Submitting <==> (c.continuous || t[k].submitted < c.count) && t[k].mark == None
    ensures t[k].pc != Submitting ==> t[k].pc == if t[k].pending == [] then Finished else Draining(0, true)
  {
    Reachable(c, t);
    assert Invariant(c, t[k - 1]);
  }

  /** At most this many futures are in flight in any interleaving. */
  ghost predicate InFlightWithin(c: Config, bound: nat) {
    forall t: seq<State>, k: nat :: Run(c, t) && Init(t[0]) && k < |t| ==> |t[k].pending| <= bound
  }

  /** Some bound holds, unless the dataset is continuous and there are no batches:
      then futures pile up. */
  lemma InFlightIff(c: Config)
    ensures (exists bound :: InFlightWithin(c, bound)) <==> !(c.continuous && c.iterwait == 0)
  {
    hide Run, Init;
    if c.continuous && c.iterwait == 0 {
      forall bound: nat
        ensures !InFlightWithin(c, bound)
      {
        var t := PilesUp(c, bound + 1);
        assert |t[|t| - 1].pending| == bound + 1;
      }
    } else {
      WithinBatch(c);
    }
  }

  lemma WithinBatch(c: Config)
    requires c.continuous ==> c.iterwait > 0
    ensures InFlightWithin(c, if c.iterwait > 0 then c.iterwait else c.count)
  {
    forall t: seq<State>, k: nat | Run(c, t) && Init(t[0]) && k < |t|
      ensures |t[k].pending| <= if c.iterwait > 0 then c.iterwait else c.count
    {
      BoundedInFlight(c, t, k);
    }
  }

  /** The worker at its loop guard after n items, none of them read. */
  function Piled(n: nat): State {
    State(Guarding, false, Numbers(n), n, [], n, None)
  }

  /** A run that nobody cancels. */
  lemma {:induction false} PilesUp(c: Config, n: nat) returns (t: seq<State>)
    requires c.continuous && c.iterwait == 0
    ensures Run(c, t) && Init(t[0]) && Last(t) == Piled(n)
  {
    if n == 0 {
      t := [State(Resetting, false, [], 0, [], 0, None), Piled(0)];
    } else {
      t := PilesUp(c, n - 1);
      var s := Piled(n - 1);
      assert Numbers(n) == Numbers(n - 1) + [n - 1];
      t := ExtendRun(c, t, s.(pc := Submitting));
      t := ExtendRun(c, t, s.(pending := Numbers(n), submitted := n, pc := Counting));
      t := ExtendRun(c, t, Piled(n));
    }
  }

  lemma ExtendRun(c: Config, t: seq<State>, s: State) returns (longer: seq<State>)
    requires Run(c, t) && Last(t).pc != Finished && s == WorkerStep(c, Last(t))
    ensures longer == t + [s] && Run(c, longer) && longer[0] == t[0] && Last(longer) == s
  {
    longer := t + [s];
  }

  /** Conservation in every interleaving: when the operation has returned,
      nothing is pending, `remaining` is 0, and exactly the submissions are
      recorded, in order; all of the dataset if no cancel step came after the
      reset, and at most one item more than at that step otherwise. */
  lemma ReturnsClean(c: Config, t: seq<State>, k: nat)
    requires Run(c, t) && Init(t[0]) && k < |t| && t[k].pc == Finished
    ensures var s := t[k];
            && s.pending == [] && s.remaining == 0 && s.recorded == Numbers(s.submitted)
            && (s.mark == None ==> !c.continuous && s.submitted == c.count)
            && (s.mark.Some? ==> s.submitted <= s.mark.value + 1)
  {
    Reachable(c, t);
    assert Invariant(c, t[k]);
  }

  /** The batch size does not show in what is recorded: of two returned
      operations on the same dataset, in whatever batches and interleavings, one
      records a prefix of what the other does, and both the same when neither
      was cancelled after its reset. */
  lemma BatchingTransparent(c: Config, d: Config, t: seq<State>, u: seq<State>)
    requires c.count == d.count && c.continuous == d.continuous
    requires Run(c, t) && Init(t[0]) && Run(d, u) && Init(u[0])
    requires t[|t| - 1].pc == Finished && u[|u| - 1].pc == Finished
    ensures var a, b := t[|t| - 1], u[|u| - 1];
            && (a.recorded <= b.recorded || b.recorded <= a.recorded)
            && (a.mark == None && b.mark == None ==> a.recorded == b.recorded)
  {
    ReturnsClean(c, t, |t| - 1);
    ReturnsClean(d, u, |u| - 1);
  }

  /* ---- termination ---- */

  /** Finite, or cancelled after the reset. */
  predicate Bounded(c: Config, s: State) {
    !c.continuous || (s.pc != Resetting && s.cancel)
  }

  /** How many items the worker can still submit. */
  function ItemsLeft(c: Config, s: State): int {
    if s.pc != Resetting && s.cancel then (if s.pc == Submitting then 1 else 0) else c.count - s.submitted
  }

  function Weight(pc: PC): nat {
    match pc
    case Resetting => 4
    case Guarding => 3
    case Submitting => 2
    case Counting => 8
    case Draining(_, last) => if last then 2 else 5
    case Finished => 0
  }

  /** A bound on the worker steps until the operation returns. */
  function Fuel(c: Config, s: State): int {
    10 * ItemsLeft(c, s) + 2 * (|s.pending| - Read(s)) + Weight(s.pc)
  }

  lemma FuelDecreases(c: Config, s: State, s': State)
    requires Invariant(c, s) && Next(c, s, s') && Bounded(c, s) && s.pc != Finished
    ensures Bounded(c, s')
    ensures s' == CancelStep(s) || Fuel(c, s') < Fuel(c, s)
    ensures s' == CancelStep(s) ==> Fuel(c, s') <= Fuel(c, s)
  {
  }

  /** The worker steps of a run. */
  function WorkerSteps(t: seq<State>): nat {
    if |t| <= 1 then 0
    else WorkerSteps(t[..|t| - 1]) + if t[|t| - 1] == CancelStep(t[|t| - 2]) then 0 else 1
  }

  /** From a bounded state on, every interleaving returns within Fuel worker
      steps: the steps taken and the fuel left never exceed the fuel at first. */
  lemma {:induction false} Terminates(c: Config, t: seq<State>)
    requires Run(c, t) && Invariant(c, t[0]) && Bounded(c, t[0])
    requires forall i :: 0 <= i < |t| - 1 ==> t[i].pc != Finished
    ensures var s := t[|t| - 1];
            && Invariant(c, s) && Bounded(c, s)
            && Fuel(c, s) >= 0 && (Fuel(c, s) == 0 ==> s.pc == Finished)
            && WorkerSteps(t) + Fuel(c, s) <= Fuel(c, t[0])
  {
    FuelLeft(c, t[0]);
    hide Invariant, Fuel, Bounded, WorkerStep, CancelStep, Next, Run;
    if |t| > 1 {
      var front := RunFront(c, t);
      Terminates(c, front);
      OneMoreStep(c, t[|t| - 2], t[|t| - 1]);
      WorkerStepsNext(t);
    }
  }

  lemma OneMoreStep(c: Config, s: State, s': State)
    requires Invariant(c, s) && Next(c, s, s') && Bounded(c, s) && s.pc != Finished
    ensures Invariant(c, s') && Bounded(c, s')
    ensures Fuel(c, s') >= 0 && (Fuel(c, s') == 0 ==> s'.pc == Finished)
    ensures Fuel(c, s') + (if s' == CancelStep(s) then 0 else 1) <= Fuel(c, s)
  {
    hide *;
    NextInvariant(c, s, s');
    FuelDecreases(c, s, s');
    FuelLeft(c, s');
  }

  lemma WorkerStepsNext(t: seq<State>)
    requires |t| > 1
    ensures WorkerSteps(t) == WorkerSteps(t[..|t| - 1]) + if t[|t| - 1] == CancelStep(t[|t| - 2]) then 0 else 1
  {
    hide CancelStep;
  }

  lemma FuelLeft(c: Config, s: State)
    requires Invariant(c, s) && Bounded(c, s)
    ensures Fuel(c, s) >= 0 && (Fuel(c, s) == 0 ==> s.pc == Finished)
  {
  }

  /** After a cancel step the worker reads the pending futures, perhaps submits
      one more item and drains it: a number of steps linear in what is pending,
      even for a continuous dataset. */
  lemma CancelReturnsSoon(c: Config, t: seq<State>)
    requires Run(c, t) && Invariant(c, t[0]) && t[0].pc != Resetting && t[0].cancel
    requires forall i :: 0 <= i < |t| - 1 ==> t[i].pc != Finished
    ensures WorkerSteps(t) <= 2 * |t[0].pending| + 12
  {
    Terminates(c, t);
  }
}
