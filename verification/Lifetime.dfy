/** Lifetime of workers and handles: the control thread and any number of worker
    threads as a state machine. Each access to h2wmap and each critical section
    is one step; the lookup of CANCEL, which the source does not lock, is taken
    to be atomic as well. */
module Lifetime {

  import opened Prelude

  /** Serving requests, between creating its handle and registering it, past its
      loop, past unregistering, returned from run(), or deleted by the control
      thread. */
  datatype Phase = Serving | Registering | Leaving | Unregistered | Ended | Deleted

  /** cur_handle, cur_hid, and the id the handle was created with, which stays
      after cur_hid is cleared. */
  datatype Worker = Worker(phase: Phase, handle: Option<nat>, hid: nat, createdAs: Option<nat>)

  datatype Actor = Control | ByWorker(worker: nat)

  /** A Handle that was destroyed, and who did it. */
  datatype Free = Free(handle: nat, actor: Actor)

  /** Workers and handles are numbered in the order of their creation. `call` is
      the worker the control thread holds a pointer to and is about to call
      cancelCurrentHandle on; `cancelled` are the handles that call reached. */
  datatype State = State(
    workers: seq<Worker>,
    children: set<nat>,
    h2wmap: map<nat, Option<nat>>,
    owners: seq<nat>,
    frees: seq<Free>,
    call: Option<nat>,
    cancelled: set<nat>)

  datatype Step =
    | Accept
    | NewHandle(w: nat, hid: nat)
    | Register(w: nat)
    | Leave(w: nat)
    | Unregister(w: nat)
    | DestroyHandle(w: nat)
    | CancelLookup(hid: nat)
    | CancelChild(w: nat)
    | CancelCall
    | Collect(w: nat)

  const START := State([], {}, map[], [], [], None, {})

  function SetWorker(s: State, w: nat, worker: Worker): State
    requires w < |s.workers|
  {
    s.(workers := s.workers[w := worker])
  }

  predicate Enabled(s: State, step: Step) {
    match step
    case Accept => s.call == None
    case NewHandle(w, _) => w < |s.workers| && s.workers[w].phase == Serving && s.workers[w].handle == None
    case Register(w) => w < |s.workers| && s.workers[w].phase == Registering
    case Leave(w) => w < |s.workers| && s.workers[w].phase == Serving
    case Unregister(w) => w < |s.workers| && s.workers[w].phase == Leaving
    case DestroyHandle(w) => w < |s.workers| && s.workers[w].phase == Unregistered
    case CancelLookup(_) => s.call == None
    case CancelChild(w) => s.call == None && w in s.children
    case CancelCall => s.call.Some?
    case Collect(w) => s.call == None && w in s.children && w < |s.workers| && s.workers[w].phase == Ended
  }

  function Apply(s: State, step: Step): State
    requires Enabled(s, step)
  {
    match step
    case Accept =>
      s.(workers := s.workers + [Worker(Serving, None, 0, None)], children := s.children + {|s.workers|})
    case NewHandle(w, hid) =>
      SetWorker(s, w, Worker(Registering, Some(|s.owners|), hid, Some(hid))).(owners := s.owners + [w])
    case Register(w) =>
      var worker := s.workers[w];
      SetWorker(s, w, worker.(phase := Serving)).(h2wmap := s.h2wmap[worker.hid := Some(w)])
    case Leave(w) => SetWorker(s, w, s.workers[w].(phase := Leaving))
    case Unregister(w) =>
      var worker := s.workers[w];
      var s' := SetWorker(s, w, worker.(phase := Unregistered, hid := 0));
      if worker.hid == 0 then s' else s'.(h2wmap := s.h2wmap - {worker.hid})
    case DestroyHandle(w) =>
      var worker := s.workers[w];
      var s' := SetWorker(s, w, worker.(phase := Ended, handle := None));
      if worker.handle.None? then s'
      else s'.(frees := s.frees + [Free(worker.handle.value, ByWorker(w))],
               cancelled := s.cancelled + {worker.handle.value})
    case CancelLookup(hid) =>
      // operator[] inserts a null pointer for a missing key
      var found := if hid in s.h2wmap then s.h2wmap[hid] else None;
      s.(h2wmap := s.h2wmap[hid := found], call := found)
    case CancelChild(w) => s.(call := Some(w))
    case CancelCall =>
      var w := s.call.value;
      s.(call := None,
         cancelled := if w < |s.workers| && s.workers[w].handle.Some? then s.cancelled + {s.workers[w].handle.value}
                      else s.cancelled)
    case Collect(w) =>
      // ~WorkerDispatch deletes cur_handle if there is one
      var worker := s.workers[w];
      var s' := SetWorker(s, w, worker.(phase := Deleted, handle := None)).(children := s.children - {w});
      if worker.handle.None? then s' else s'.(frees := s.frees + [Free(worker.handle.value, Control)])
  }

  /** The steps of a run, and the state they lead to. */
  predicate Possible(steps: seq<Step>)
    decreases |steps|, 0
  {
    steps == [] || (Possible(steps[..|steps| - 1])
                    && Enabled(After(steps[..|steps| - 1]), steps[|steps| - 1]))
  }

  function After(steps: seq<Step>): State
    requires Possible(steps)
    decreases |steps|, 1
  {
    if steps == [] then START else Apply(After(steps[..|steps| - 1]), steps[|steps| - 1])
  }

  /** Every handle of the run is created with one of these ids. */
  ghost predicate UsesIds(steps: seq<Step>, ids: iset<nat>) {
    forall i :: 0 <= i < |steps| && steps[i].NewHandle? ==> steps[i].hid in ids
  }

  ghost predicate NonZeroIds(steps: seq<Step>) {
    forall i :: 0 <= i < |steps| && steps[i].NewHandle? ==> steps[i].hid != 0
  }

  /* ---- safety ---- */

  predicate Freed(s: State, h: nat) {
    exists i :: 0 <= i < |s.frees| && s.frees[i].handle == h
  }

  predicate Alive(s: State, w: nat) {
    w < |s.workers| && s.workers[w].phase != Deleted
  }

  /** No pointer the program is going to follow is dangling: map entries and the
      control thread's pointer name workers that are not deleted, and cur_handle
      is never a destroyed handle; and every destruction of a handle is its
      owner's, and the only one. */
  ghost predicate Safe(s: State) {
    && (forall id :: id in s.h2wmap && s.h2wmap[id].Some? ==> Alive(s, s.h2wmap[id].value))
    && (s.call.Some? ==> Alive(s, s.call.value))
    && (forall w :: w in s.children ==> Alive(s, w))
    && (forall w :: 0 <= w < |s.workers| && s.workers[w].handle.Some? ==>
          s.workers[w].handle.value < |s.owners| && !Freed(s, s.workers[w].handle.value))
    && (forall i :: 0 <= i < |s.frees| ==>
          s.frees[i].handle < |s.owners| && s.frees[i].actor == ByWorker(s.owners[s.frees[i].handle]))
    && (forall i, j :: 0 <= i < j < |s.frees| ==> s.frees[i].handle != s.frees[j].handle)
  }

  /* ---- the invariant ---- */

  /** A worker that has created its handle and is still past neither
      unregistering nor its loop's end, keeps both its handle and its id. */
  predicate WorkerOk(worker: Worker) {
    match worker.phase
    case Serving => Owns(worker)
    case Registering => Owns(worker) && worker.createdAs.Some?
    case Leaving => Owns(worker)
    case Unregistered => (worker.handle.Some? <==> worker.createdAs.Some?) && worker.hid == 0
    case Ended => worker.handle == None && worker.hid == 0
    case Deleted => worker.handle == None && worker.hid == 0
  }

  predicate Owns(worker: Worker) {
    && (worker.handle.Some? <==> worker.createdAs.Some?)
    && worker.hid == if worker.createdAs.Some? then worker.createdAs.value else 0
  }

  /** In the part of its life in which h2wmap may name it. */
  predicate Listed(worker: Worker) {
    worker.createdAs.Some? && worker.phase in {Serving, Leaving}
  }

  ghost predicate WorkersInv(s: State) {
    forall w :: 0 <= w < |s.workers| ==>
      && WorkerOk(s.workers[w])
      && (s.workers[w].createdAs.Some? ==> s.workers[w].createdAs.value != 0)
      && (w in s.children <==> s.workers[w].phase != Deleted)
  }

  ghost predicate PointersInv(s: State) {
    && (forall id :: id in s.h2wmap && s.h2wmap[id].Some? ==>
          var w := s.h2wmap[id].value;
          w < |s.workers| && Listed(s.workers[w]) && s.workers[w].hid == id)
    && (s.call.Some? ==> Alive(s, s.call.value))
    && (forall w :: w in s.children ==> w < |s.workers|)
  }

  /** Whoever holds a handle owns it and it is not destroyed; every other handle
      was destroyed, once, by its owner. */
  ghost predicate HandlesInv(s: State) {
    && (forall h :: 0 <= h < |s.owners| ==> s.owners[h] < |s.workers|)
    && (forall w :: 0 <= w < |s.workers| && s.workers[w].handle.Some? ==>
          var h := s.workers[w].handle.value;
          h < |s.owners| && s.owners[h] == w && !Freed(s, h))
    && (forall h :: 0 <= h < |s.owners| ==> Freed(s, h) || s.workers[s.owners[h]].handle == Some(h))
    && (forall i :: 0 <= i < |s.frees| ==>
          s.frees[i].handle < |s.owners| && s.frees[i].actor == ByWorker(s.owners[s.frees[i].handle]))
    && (forall i, j :: 0 <= i < j < |s.frees| ==> s.frees[i].handle != s.frees[j].handle)
  }

  ghost predicate DistinctIds(s: State) {
    forall v, w :: 0 <= v < w < |s.workers| && s.workers[v].createdAs.Some? && s.workers[w].createdAs.Some? ==>
      s.workers[v].createdAs != s.workers[w].createdAs
  }

  ghost predicate RegisteredInv(s: State) {
    DistinctIds(s) ==> forall w :: 0 <= w < |s.workers| && Listed(s.workers[w]) ==>
      s.workers[w].hid in s.h2wmap && s.h2wmap[s.workers[w].hid] == Some(w)
  }

  /** One worker at a time changes. */
  lemma WorkersSet(s: State, s': State, w: nat, worker: Worker)
    requires WorkersInv(s) && w < |s.workers| && s'.workers == s.workers[w := worker]
    requires WorkerOk(worker) && (worker.createdAs.Some? ==> worker.createdAs.value != 0)
    requires s'.children == if worker.phase == Deleted then s.children - {w} else s.children
    requires w in s.children || worker.phase == Deleted
    ensures WorkersInv(s')
  {
    hide WorkerOk;
  }

  lemma WorkersStep(s: State, step: Step)
    requires WorkersInv(s) && Enabled(s, step) && (step.NewHandle? ==> step.hid != 0)
    ensures WorkersInv(Apply(s, step))
  {
    if step.Accept? || step.CancelLookup? || step.CancelChild? || step.CancelCall? {
      WorkersControl(s, step);
    } else {
      var s' := Apply(s, step);
      assert WorkerOk(s.workers[step.w]) && (step.w in s.children <==> s.workers[step.w].phase != Deleted);
      hide WorkersInv;
      WorkersSet(s, s', step.w, s'.workers[step.w]);
    }
  }

  lemma WorkersControl(s: State, step: Step)
    requires WorkersInv(s) && Enabled(s, step)
    requires step.Accept? || step.CancelLookup? || step.CancelChild? || step.CancelCall?
    ensures WorkersInv(Apply(s, step))
  {
  }

  lemma PointersListing(s: State, step: Step)
    requires WorkersInv(s) && PointersInv(s) && Enabled(s, step) && (step.Register? || step.Unregister?)
    ensures PointersInv(Apply(s, step))
  {
    assert WorkerOk(s.workers[step.w]);
  }

  lemma PointersWorker(s: State, step: Step)
    requires WorkersInv(s) && PointersInv(s) && Enabled(s, step)
    requires step.NewHandle? || step.Leave? || step.DestroyHandle? || step.Collect?
    ensures PointersInv(Apply(s, step))
  {
    assert WorkerOk(s.workers[step.w]);
  }

  lemma PointersControl(s: State, step: Step)
    requires WorkersInv(s) && PointersInv(s) && Enabled(s, step)
    requires step.Accept? || step.CancelLookup? || step.CancelChild? || step.CancelCall?
    ensures PointersInv(Apply(s, step))
  {
  }

  lemma PointersStep(s: State, step: Step)
    requires WorkersInv(s) && PointersInv(s) && Enabled(s, step)
    ensures PointersInv(Apply(s, step))
  {
    hide WorkersInv, PointersInv, Apply, Enabled;
    match step
    case Register(_) => PointersListing(s, step);
    case Unregister(_) => PointersListing(s, step);
    case NewHandle(_, _) => PointersWorker(s, step);
    case Leave(_) => PointersWorker(s, step);
    case DestroyHandle(_) => PointersWorker(s, step);
    case Collect(_) => PointersWorker(s, step);
    case _ => PointersControl(s, step);
  }

  lemma HandlesSame(s: State, s': State)
    requires HandlesInv(s) && s'.owners == s.owners && s'.frees == s.frees && |s'.workers| >= |s.workers|
    requires forall w :: 0 <= w < |s.workers| ==> s'.workers[w].handle == s.workers[w].handle
    requires forall w :: |s.workers| <= w < |s'.workers| ==> s'.workers[w].handle == None
    ensures HandlesInv(s')
  {
    assert forall h: nat :: Freed(s', h) <==> Freed(s, h);
  }

  lemma HandlesCreate(s: State, step: Step)
    requires HandlesInv(s) && Enabled(s, step) && step.NewHandle?
    ensures HandlesInv(Apply(s, step))
  {
    var s' := Apply(s, step);
    assert forall h: nat :: Freed(s', h) <==> Freed(s, h);
  }

  lemma HandlesDestroy(s: State, step: Step)
    requires HandlesInv(s) && Enabled(s, step) && step.DestroyHandle? && s.workers[step.w].handle.Some?
    ensures HandlesInv(Apply(s, step))
  {
    var s', h := Apply(s, step), s.workers[step.w].handle.value;
    FreedNext(s, s', h, ByWorker(step.w));
    forall i | 0 <= i < |s.frees|
      ensures s.frees[i].handle != h
    {
      assert !Freed(s, h);
    }
  }

  lemma HandlesStep(s: State, step: Step)
    requires WorkersInv(s) && HandlesInv(s) && Enabled(s, step)
    ensures HandlesInv(Apply(s, step))
  {
    hide HandlesInv;
    if step.NewHandle? {
      HandlesCreate(s, step);
    } else if step.DestroyHandle? && s.workers[step.w].handle.Some? {
      HandlesDestroy(s, step);
    } else {
      HandlesSame(s, Apply(s, step));
    }
  }

  lemma FreedNext(s: State, s': State, h: nat, actor: Actor)
    requires s'.frees == s.frees + [Free(h, actor)]
    ensures forall k: nat :: Freed(s', k) <==> k == h || Freed(s, k)
  {
    forall k: nat
      ensures Freed(s', k) <==> k == h || Freed(s, k)
    {
      assert s'.frees[|s.frees|].handle == h;
      if Freed(s, k) {
        var i :| 0 <= i < |s.frees| && s.frees[i].handle == k;
        assert s'.frees[i].handle == k;
      }
    }
  }

  lemma DistinctBefore(s: State, step: Step)
    requires WorkersInv(s) && Enabled(s, step) && DistinctIds(Apply(s, step))
    ensures DistinctIds(s)
  {
    var s' := Apply(s, step);
    assert forall w :: 0 <= w < |s.workers| && s.workers[w].createdAs.Some? ==>
      s'.workers[w].createdAs == s.workers[w].createdAs;
  }

  lemma RegisteredStep(s: State, step: Step)
    requires WorkersInv(s) && RegisteredInv(s) && Enabled(s, step)
    ensures RegisteredInv(Apply(s, step))
  {
    var s' := Apply(s, step);
    if DistinctIds(s') {
      DistinctBefore(s, step);
      forall w | 0 <= w < |s'.workers| && Listed(s'.workers[w])
        ensures s'.workers[w].hid in s'.h2wmap && s'.h2wmap[s'.workers[w].hid] == Some(w)
      {
        StillListed(s, step, w);
      }
    }
  }

  lemma StillListed(s: State, step: Step, w: nat)
    requires WorkersInv(s) && RegisteredInv(s) && Enabled(s, step)
    requires DistinctIds(s) && DistinctIds(Apply(s, step))
    requires w < |Apply(s, step).workers| && Listed(Apply(s, step).workers[w])
    ensures var s' := Apply(s, step);
            s'.workers[w].hid in s'.h2wmap && s'.h2wmap[s'.workers[w].hid] == Some(w)
  {
    var s' := Apply(s, step);
    assert w < |s.workers|;
    assert WorkerOk(s.workers[w]);
    if step.Register? && step.w == w {
    } else {
      assert Listed(s.workers[w]) && s'.workers[w].hid == s.workers[w].hid;
      if step.Unregister? || step.Register? {
        var v := step.w;
        assert WorkerOk(s.workers[v]);
        if s.workers[v].createdAs.Some? {
          assert s.workers[v].createdAs != s.workers[w].createdAs;
        } else {
          assert s.workers[v].hid == 0;
        }
      }
    }
  }

  /* ---- the theorems ---- */

  ghost predicate Invariant(s: State) {
    WorkersInv(s) && PointersInv(s) && HandlesInv(s) && RegisteredInv(s)
  }

  /** Every state of a run whose handle ids are not zero satisfies the invariant. */
  lemma {:induction false} Reachable(steps: seq<Step>)
    requires Possible(steps) && NonZeroIds(steps)
    ensures Invariant(After(steps))
  {
    hide WorkersInv, PointersInv, HandlesInv, RegisteredInv;
    if steps == [] {
      StartInvariant();
    } else {
      var front, step := steps[..|steps| - 1], steps[|steps| - 1];
      assert NonZeroIds(front);
      Reachable(front);
      var s := After(front);
      WorkersStep(s, step);
      PointersStep(s, step);
      HandlesStep(s, step);
      RegisteredStep(s, step);
    }
  }

  lemma StartInvariant()
    ensures Invariant(START)
  {
  }

  /** Which ids are safe: exactly the non-zero ones. With them no interleaving of
      registering, cancelling, leaving and collecting ever leaves a dangling
      pointer; with id 0, which a leaving worker does not unregister, one does. */
  lemma SafeIff(ids: iset<nat>)
    ensures (forall steps :: Possible(steps) && UsesIds(steps, ids) ==> Safe(After(steps))) <==> 0 !in ids
  {
    if 0 in ids {
      var steps := ZeroIdDangles();
      assert UsesIds(steps, ids);
    } else {
      forall steps | Possible(steps) && UsesIds(steps, ids)
        ensures Safe(After(steps))
      {
        assert NonZeroIds(steps);
        Reachable(steps);
        InvariantSafe(After(steps));
      }
    }
  }

  lemma InvariantSafe(s: State)
    requires Invariant(s)
    ensures Safe(s)
  {
  }

  /** One more step of a run that uses id 0 alone. */
  lemma Extend(steps: seq<Step>, step: Step, s: State) returns (longer: seq<Step>)
    requires Possible(steps) && UsesIds(steps, iset{0}) && Leads(After(steps), step, s)
    requires step.NewHandle? ==> step.hid == 0
    ensures Possible(longer) && UsesIds(longer, iset{0}) && After(longer) == s
  {
    hide Apply, Enabled;
    longer := steps + [step];
    assert longer[..|longer| - 1] == steps;
  }

  /** The only worker, with handle 0 of id 0, in a phase after creating it. */
  function Lone(phase: Phase, registered: bool): State {
    var over := phase in {Ended, Deleted};
    State([Worker(phase, if over then None else Some(0), 0, Some(0))],
          if phase == Deleted then {} else {0},
          if registered then map[0 := Some(0)] else map[],
          [0],
          if over then [Free(0, ByWorker(0))] else [],
          None,
          if over then {0} else {})
  }

  predicate Leads(s: State, step: Step, s': State) {
    Enabled(s, step) && Apply(s, step) == s'
  }

  lemma LoneArrives(s: State)
    requires Leads(START, Accept, s)
    ensures Leads(s, NewHandle(0, 0), Lone(Registering, false))
    ensures Leads(Lone(Registering, false), Register(0), Lone(Serving, true))
  {
  }

  lemma LoneLeaves()
    ensures Leads(Lone(Serving, true), Leave(0), Lone(Leaving, true))
    ensures Leads(Lone(Leaving, true), Unregister(0), Lone(Unregistered, true))
  {
  }

  lemma LoneEnds()
    ensures Leads(Lone(Unregistered, true), DestroyHandle(0), Lone(Ended, true))
    ensures Leads(Lone(Ended, true), Collect(0), Lone(Deleted, true))
    ensures !Safe(Lone(Deleted, true))
  {
    var s := Lone(Deleted, true);
    assert s.h2wmap[0] == Some(0) && s.workers[0].phase == Deleted;
  }

  /** A worker with handle id 0 comes and serves. */
  lemma ZeroIdServes() returns (steps: seq<Step>)
    ensures Possible(steps) && UsesIds(steps, iset{0}) && After(steps) == Lone(Serving, true)
  {
    var arrived := Apply(START, Accept);
    assert Possible([]) && After([]) == START && UsesIds([], iset{0});
    assert Leads(START, Accept, arrived);
    LoneArrives(arrived);
    hide *;
    steps := Extend([], Accept, arrived);
    steps := Extend(steps, NewHandle(0, 0), Lone(Registering, false));
    steps := Extend(steps, Register(0), Lone(Serving, true));
  }

  /** It leaves and is collected, and h2wmap still names it. */
  lemma ZeroIdDangles() returns (steps: seq<Step>)
    ensures Possible(steps) && UsesIds(steps, iset{0}) && !Safe(After(steps))
  {
    hide *;
    steps := ZeroIdServes();
    LoneLeaves();
    LoneEnds();
    steps := Extend(steps, Leave(0), Lone(Leaving, true));
    steps := Extend(steps, Unregister(0), Lone(Unregistered, true));
    steps := Extend(steps, DestroyHandle(0), Lone(Ended, true));
    steps := Extend(steps, Collect(0), Lone(Deleted, true));
  }

  /** When all workers are collected, every handle was destroyed exactly once, by
      its owner, and h2wmap holds null pointers only. */
  lemma NothingLeaks(steps: seq<Step>)
    requires Possible(steps) && NonZeroIds(steps) && After(steps).children == {}
    ensures var s := After(steps);
            && (forall h :: 0 <= h < |s.owners| ==> Freed(s, h))
            && (forall i :: 0 <= i < |s.frees| ==>
                  s.frees[i].handle < |s.owners| && s.frees[i].actor == ByWorker(s.owners[s.frees[i].handle]))
            && (forall i, j :: 0 <= i < j < |s.frees| ==> s.frees[i].handle != s.frees[j].handle)
            && (forall id :: id in s.h2wmap ==> s.h2wmap[id] == None)
  {
    Reachable(steps);
    var s := After(steps);
    assert forall w :: 0 <= w < |s.workers| ==> s.workers[w].phase == Deleted && WorkerOk(s.workers[w]);
    assert forall h :: 0 <= h < |s.owners| ==> s.workers[s.owners[h]].handle == None;
  }

  /** The control thread is about to call worker w, which still has handle h, or has
      ended and cancelled h. */
  predicate Called(s: State, w: nat, h: nat) {
    && s.call == Some(w) && w < |s.workers|
    && (s.workers[w].handle == Some(h)
        || (h in s.cancelled && s.workers[w].handle == None && s.workers[w].phase == Ended))
  }

  lemma CalledStep(s: State, step: Step, w: nat, h: nat)
    requires Called(s, w, h) && Enabled(s, step)
    ensures step != CancelCall ==> Called(Apply(s, step), w, h)
    ensures step == CancelCall ==> Apply(s, step).cancelled == s.cancelled + {h}
  {
  }

  lemma LastStep(front: seq<Step>, step: Step)
    requires Possible(front + [step])
    ensures Possible(front) && Enabled(After(front), step) && After(front + [step]) == Apply(After(front), step)
  {
    var steps := front + [step];
    assert steps[..|steps| - 1] == front;
  }

  lemma {:induction false} CalledUntil(front: seq<Step>, mid: seq<Step>, w: nat, h: nat)
    requires Possible(front + mid) && CancelCall !in mid
    requires Possible(front) ==> Called(After(front), w, h)
    ensures Called(After(front + mid), w, h)
  {
    hide Called, Apply, Enabled;
    if mid == [] {
      assert front + mid == front;
    } else {
      var before, step := mid[..|mid| - 1], mid[|mid| - 1];
      assert front + mid == (front + before) + [step];
      LastStep(front + before, step);
      CalledUntil(front, before, w, h);
      CalledStep(After(front + before), step, w, h);
    }
  }

  /** A call that is about to reach a worker with this handle cancels this handle and
      no other, whatever the workers do before it. */
  lemma CallReaches(looked: seq<Step>, mid: seq<Step>, w: nat, h: nat)
    requires Possible(looked + mid + [CancelCall]) && CancelCall !in mid
    requires Possible(looked) ==> Called(After(looked), w, h)
    ensures Possible(looked) && Possible(looked + mid)
    ensures After(looked + mid + [CancelCall]).cancelled == After(looked + mid).cancelled + {h}
  {
    hide After, Possible, Apply, Enabled, Called;
    LastStep(looked + mid, CancelCall);
    PrefixPossible(looked, mid);
    CalledUntil(looked, mid, w, h);
    CalledStep(After(looked + mid), CancelCall, w, h);
  }

  /** If all handle ids differ, CANCEL with the id of a registered handle cancels
      that handle, whatever the workers do between the lookup and the call, and
      neither the lookup nor the call cancels any other. */
  lemma CancelReaches(front: seq<Step>, w: nat, mid: seq<Step>)
    requires Possible(front) && NonZeroIds(front) && CancelCall !in mid
    requires var s := After(front);
             && DistinctIds(s) && w < |s.workers| && Listed(s.workers[w])
             && Possible(front + [CancelLookup(s.workers[w].hid)] + mid + [CancelCall])
    ensures var s := After(front);
            var looked := front + [CancelLookup(s.workers[w].hid)];
            && s.workers[w].handle.Some?
            && Possible(looked) && Possible(looked + mid)
            && After(looked).cancelled == s.cancelled
            && After(looked + mid + [CancelCall]).cancelled == After(looked + mid).cancelled + {s.workers[w].handle.value}
  {
    var s := After(front);
    var looked := front + [CancelLookup(s.workers[w].hid)];
    Reachable(front);
    assert WorkerOk(s.workers[w]);
    LastStep(looked + mid, CancelCall);
    PrefixPossible(looked, mid);
    LastStep(front, CancelLookup(s.workers[w].hid));
    LookupFinds(s, w);
    hide After, Possible, Enabled, Called;
    CallReaches(looked, mid, w, s.workers[w].handle.value);
  }

  /** The same of the calls by which the control thread ends its workers. */
  lemma CancelChildReaches(front: seq<Step>, w: nat, mid: seq<Step>)
    requires Possible(front) && CancelCall !in mid
    requires var s := After(front);
             && w < |s.workers| && s.workers[w].handle.Some?
             && Possible(front + [CancelChild(w)] + mid + [CancelCall])
    ensures var s, called := After(front), front + [CancelChild(w)];
            && Possible(called) && Possible(called + mid)
            && After(called).cancelled == s.cancelled
            && After(called + mid + [CancelCall]).cancelled == After(called + mid).cancelled + {s.workers[w].handle.value}
  {
    var s, called := After(front), front + [CancelChild(w)];
    LastStep(called + mid, CancelCall);
    PrefixPossible(called, mid);
    LastStep(front, CancelChild(w));
    assert Called(After(called), w, s.workers[w].handle.value);
    hide After, Possible, Enabled, Called;
    CallReaches(called, mid, w, s.workers[w].handle.value);
  }

  /** Nothing but a call in progress keeps the control thread from either of them. */
  lemma CancelPossible(front: seq<Step>, w: nat)
    requires Possible(front) && NonZeroIds(front) && After(front).call == None
    requires var s := After(front); w < |s.workers| && s.workers[w].phase != Deleted
    ensures Possible(front + [CancelChild(w), CancelCall])
    ensures var s := After(front);
            DistinctIds(s) && Listed(s.workers[w]) ==> Possible(front + [CancelLookup(s.workers[w].hid), CancelCall])
  {
    Reachable(front);
    var s := After(front);
    hide PointersInv, HandlesInv, RegisteredInv, After, Possible, Listed, DistinctIds;
    CallFollows(front, CancelChild(w));
    if DistinctIds(s) && Listed(s.workers[w]) {
      LookupFinds(s, w);
      CallFollows(front, CancelLookup(s.workers[w].hid));
    }
  }

  lemma CallFollows(front: seq<Step>, step: Step)
    requires Possible(front) && Enabled(After(front), step) && Apply(After(front), step).call.Some?
    ensures Possible(front + [step, CancelCall])
  {
    hide Apply, After, Possible;
    Longer(front, step);
    Longer(front + [step], CancelCall);
    assert front + [step] + [CancelCall] == front + [step, CancelCall];
  }

  lemma Longer(front: seq<Step>, step: Step)
    requires Possible(front) && Enabled(After(front), step)
    ensures Possible(front + [step]) && After(front + [step]) == Apply(After(front), step)
  {
    var steps := front + [step];
    assert steps[..|steps| - 1] == front;
  }

  /* ---- the end of the program ---- */

  /** What a worker does next if no request arrives, and then the control thread. */
  function NextOf(w: nat, phase: Phase): Step {
    match phase
    case Registering => Register(w)
    case Serving => Leave(w)
    case Leaving => Unregister(w)
    case Unregistered => DestroyHandle(w)
    case _ => Collect(w)
  }

  function StepsLeft(worker: Worker): nat {
    match worker.phase
    case Registering => 5
    case Serving => 4
    case Leaving => 3
    case Unregistered => 2
    case Ended => 1
    case Deleted => 0
  }

  function AllStepsLeft(workers: seq<Worker>): nat {
    if workers == [] then 0 else AllStepsLeft(Front(workers)) + StepsLeft(Last(workers))
  }

  lemma {:induction false} StepsLeftSet(workers: seq<Worker>, w: nat, worker: Worker)
    requires w < |workers|
    ensures AllStepsLeft(workers[w := worker]) == AllStepsLeft(workers) - StepsLeft(workers[w]) + StepsLeft(worker)
  {
    var after := workers[w := worker];
    if w == |workers| - 1 {
      assert Front(after) == Front(workers);
    } else {
      assert Front(after) == Front(workers)[w := worker] && Last(after) == Last(workers);
      StepsLeftSet(Front(workers), w, worker);
    }
  }

  lemma {:induction false} StepsLeftBound(workers: seq<Worker>)
    ensures AllStepsLeft(workers) <= 5 * |workers|
    ensures AllStepsLeft(workers) == 0 ==> forall w :: 0 <= w < |workers| ==> workers[w].phase == Deleted
  {
    if workers != [] {
      StepsLeftBound(Front(workers));
      assert forall w :: 0 <= w < |workers| - 1 ==> workers[w] == Front(workers)[w];
    }
  }

  lemma {:induction false} SomeStepLeft(workers: seq<Worker>) returns (w: nat)
    requires AllStepsLeft(workers) > 0
    ensures w < |workers| && workers[w].phase != Deleted
  {
    w := |workers| - 1;
    if StepsLeft(workers[w]) == 0 {
      w := SomeStepLeft(Front(workers));
    }
  }

  /** The next step of a worker can be taken, and is one less to take. */
  lemma NextTakes(s: State, w: nat)
    requires WorkersInv(s) && s.call == None && w < |s.workers| && s.workers[w].phase != Deleted
    ensures var step := NextOf(w, s.workers[w].phase);
            && Enabled(s, step) && !step.NewHandle?
            && var s' := Apply(s, step);
               && s'.call == None && |s'.workers| == |s.workers| && s'.workers == s.workers[w := s'.workers[w]]
               && StepsLeft(s'.workers[w]) == StepsLeft(s.workers[w]) - 1
  {
  }

  lemma OneStepLess(steps: seq<Step>) returns (step: Step)
    requires Possible(steps) && NonZeroIds(steps)
    requires After(steps).call == None && AllStepsLeft(After(steps).workers) > 0
    ensures Possible(steps + [step]) && NonZeroIds(steps + [step])
    ensures var s, s' := After(steps), After(steps + [step]);
            && s'.call == None && |s'.workers| == |s.workers|
            && AllStepsLeft(s'.workers) == AllStepsLeft(s.workers) - 1
  {
    Reachable(steps);
    hide PointersInv, HandlesInv, RegisteredInv, WorkersInv, Apply, Enabled, After, Possible;
    var s := After(steps);
    var w := SomeStepLeft(s.workers);
    step := NextOf(w, s.workers[w].phase);
    NextTakes(s, w);
    Longer(steps, step);
    StepsLeftSet(s.workers, w, Apply(s, step).workers[w]);
  }

  /** When no call is in progress, all workers can be brought to their end. */
  lemma {:induction false} AllEnd(steps: seq<Step>) returns (more: seq<Step>)
    requires Possible(steps) && NonZeroIds(steps) && After(steps).call == None
    ensures Possible(steps + more) && NonZeroIds(steps + more)
    ensures |more| == AllStepsLeft(After(steps).workers)
    ensures After(steps + more).children == {} && |After(steps + more).workers| == |After(steps).workers|
    decreases AllStepsLeft(After(steps).workers)
  {
    hide Apply, Enabled, After, Possible, Invariant, NonZeroIds, AllStepsLeft;
    if AllStepsLeft(After(steps).workers) == 0 {
      more := [];
      assert steps + more == steps;
      Reachable(steps);
      StepsLeftBound(After(steps).workers);
      NoChildren(After(steps));
    } else {
      var step := OneStepLess(steps);
      var rest := AllEnd(steps + [step]);
      more := [step] + rest;
      assert steps + more == steps + [step] + rest;
    }
  }

  lemma NoChildren(s: State)
    requires Invariant(s) && forall w :: 0 <= w < |s.workers| ==> s.workers[w].phase == Deleted
    ensures s.children == {}
  {
  }

  /** No worker is left, every handle is destroyed, and h2wmap names nobody. */
  ghost predicate Over(s: State) {
    && s.children == {}
    && (forall h :: 0 <= h < |s.owners| ==> Freed(s, h))
    && (forall id :: id in s.h2wmap ==> s.h2wmap[id] == None)
  }

  lemma OverAtEnd(steps: seq<Step>)
    requires Possible(steps) && NonZeroIds(steps) && After(steps).children == {}
    ensures Over(After(steps))
  {
    NothingLeaks(steps);
    hide After, Possible, NonZeroIds, Freed;
  }

  lemma EndsWithoutCall(steps: seq<Step>) returns (more: seq<Step>)
    requires Possible(steps) && NonZeroIds(steps) && After(steps).call == None
    ensures Possible(steps + more) && NonZeroIds(steps + more) && Over(After(steps + more))
    ensures |more| <= 5 * |After(steps).workers| && |After(steps + more).workers| == |After(steps).workers|
  {
    hide *;
    more := AllEnd(steps);
    StepsLeftBound(After(steps).workers);
    OverAtEnd(steps + more);
  }

  /** The program can always end: from every reachable state at most five steps for
      each worker, and one for a call in progress, lead to a state in which no worker
      is left, every handle is destroyed, and h2wmap names nobody. */
  lemma CanAlwaysEnd(steps: seq<Step>) returns (more: seq<Step>)
    requires Possible(steps) && NonZeroIds(steps)
    ensures Possible(steps + more) && NonZeroIds(steps + more) && Over(After(steps + more))
    ensures |more| <= 5 * |After(steps).workers| + 1 && |After(steps + more).workers| == |After(steps).workers|
  {
    hide *;
    if After(steps).call == None {
      more := EndsWithoutCall(steps);
    } else {
      EndCall(steps);
      var rest := EndsWithoutCall(steps + [CancelCall]);
      more := [CancelCall] + rest;
      assert steps + more == steps + [CancelCall] + rest;
    }
  }

  lemma EndCall(steps: seq<Step>)
    requires Possible(steps) && NonZeroIds(steps) && After(steps).call.Some?
    ensures var called := steps + [CancelCall];
            && Possible(called) && NonZeroIds(called)
            && After(called).call == None && After(called).workers == After(steps).workers
  {
    Longer(steps, CancelCall);
  }

  /** A CANCEL call of the run reached the worker while it held this handle. */
  ghost predicate CancelledBy(steps: seq<Step>, i: nat, h: nat) {
    && i < |steps| && steps[i] == CancelCall && Possible(steps[..i])
    && var s := After(steps[..i]);
       s.call.Some? && s.call.value < |s.workers| && s.workers[s.call.value].handle == Some(h)
  }

  /** Who is cancelled: exactly the handles that their workers have destroyed, which
      they cancel first, and those a CANCEL call has reached. */
  lemma {:induction false} CancelledIff(steps: seq<Step>, h: nat)
    requires Possible(steps) && NonZeroIds(steps)
    ensures h in After(steps).cancelled <==>
            Freed(After(steps), h) || exists i: nat :: CancelledBy(steps, i, h)
  {
    if steps == [] {
      assert After(steps) == START;
    } else {
      var n := |steps| - 1;
      var front, step := steps[..n], steps[n];
      assert NonZeroIds(front);
      CancelledIff(front, h);
      Reachable(front);
      CancelledStep(After(front), step, h);
      assert steps == front + [step];
      LastStep(front, step);
      hide *;
      CancelledByNext(front, step, h);
    }
  }

  lemma CancelledByNext(front: seq<Step>, step: Step, h: nat)
    requires Possible(front)
    ensures (exists i: nat :: CancelledBy(front + [step], i, h))
            <==> (exists i: nat :: CancelledBy(front, i, h)) || (step == CancelCall && ReachedBy(After(front), h))
  {
    hide Possible, After;
    var steps := front + [step];
    forall i: nat | i < |front|
      ensures CancelledBy(steps, i, h) <==> CancelledBy(front, i, h)
    {
      assert front[..i] == steps[..i];
    }
    assert steps[..|front|] == front;
    assert CancelledBy(steps, |front|, h) <==> step == CancelCall && ReachedBy(After(front), h);
  }

  predicate ReachedBy(s: State, h: nat) {
    s.call.Some? && s.call.value < |s.workers| && s.workers[s.call.value].handle == Some(h)
  }

  lemma CancelledStep(s: State, step: Step, h: nat)
    requires Invariant(s) && Enabled(s, step)
    ensures h in Apply(s, step).cancelled <==>
            || h in s.cancelled || (step == CancelCall && ReachedBy(s, h))
            || (Freed(Apply(s, step), h) && !Freed(s, h))
    ensures Freed(s, h) ==> Freed(Apply(s, step), h)
  {
    if step.DestroyHandle? && s.workers[step.w].handle.Some? {
      FreedNext(s, Apply(s, step), s.workers[step.w].handle.value, ByWorker(step.w));
    } else {
      if step.Collect? {
        assert WorkerOk(s.workers[step.w]);
      }
      assert Freed(Apply(s, step), h) <==> Freed(s, h);
    }
  }

  lemma {:induction false} PrefixPossible(front: seq<Step>, mid: seq<Step>)
    requires Possible(front + mid)
    ensures Possible(front)
  {
    if mid == [] {
      assert front + mid == front;
    } else {
      assert front + mid == (front + mid[..|mid| - 1]) + [mid[|mid| - 1]];
      LastStep(front + mid[..|mid| - 1], mid[|mid| - 1]);
      PrefixPossible(front, mid[..|mid| - 1]);
    }
  }

  /** CANCEL with an id under which nobody is registered calls no worker; it leaves a
      null pointer under the id and all other entries as they are. */
  lemma LookupOfUnknown(front: seq<Step>, hid: nat)
    requires Possible(front) && NonZeroIds(front) && Possible(front + [CancelLookup(hid)])
    requires var s := After(front);
             forall w :: 0 <= w < |s.workers| && Listed(s.workers[w]) ==> s.workers[w].hid != hid
    ensures var s, s' := After(front), After(front + [CancelLookup(hid)]);
            && s'.call == None && s'.h2wmap == s.h2wmap[hid := None] && s'.cancelled == s.cancelled
  {
    Reachable(front);
    LastStep(front, CancelLookup(hid));
    UnknownEntry(After(front), hid);
  }

  lemma UnknownEntry(s: State, hid: nat)
    requires PointersInv(s) && forall w :: 0 <= w < |s.workers| && Listed(s.workers[w]) ==> s.workers[w].hid != hid
    ensures hid in s.h2wmap ==> s.h2wmap[hid] == None
  {
  }

  lemma LookupFinds(s: State, w: nat)
    requires Invariant(s) && DistinctIds(s) && w < |s.workers| && Listed(s.workers[w])
    requires Enabled(s, CancelLookup(s.workers[w].hid))
    ensures s.workers[w].handle.Some?
    ensures Called(Apply(s, CancelLookup(s.workers[w].hid)), w, s.workers[w].handle.value)
  {
    assert WorkerOk(s.workers[w]);
  }
}
