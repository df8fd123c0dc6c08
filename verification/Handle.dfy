/** Handle: batches of asynchronous operations, their futures, and cancellation. */
module Pipeline {
  import opened Datasets
  import opened Prelude
  import opened Routing
  import opened Timeline
  import opened Results

  /** The result of an operation already handed to the cluster: what get() returns. */
  datatype Future = Future(ec: ErrorCode)

  /** A key and the scope and collection it is sent to. */
  datatype Submission = Submission(key: string, collection: Option<(string, string)>)

  /** What the program does not decide during one operation: the error code of
      its k-th submission, the clock at its k-th result, and whether a cancel
      step of another thread lands between the readings k-1 and k of do_cancel
      (for k = 0: since do_cancel was reset). */
  datatype Environment = Environment(outcome: nat -> ErrorCode, clock: nat -> Tick, cancelled: nat -> bool)

  /** The first n results of an operation, in submission order. */
  function Recorded(env: Environment, n: nat): seq<Event> {
    seq(n, k requires k >= 0 => EventOf(env.outcome(k), env.clock(k)))
  }

  /** The results of draining these futures after `from` others. */
  function Drained(env: Environment, futures: seq<Future>, from: nat): seq<Event> {
    seq(|futures|, k requires 0 <= k < |futures| => EventOf(futures[k].ec, env.clock(from + k)))
  }

  /** The operation leaves its loop when it would submit item n. */
  ghost predicate StopsAt(ds: Dataset, env: Environment, n: nat) {
    && (ds.DoneAfter(n) || env.cancelled(n))
    && forall j: nat :: j < n ==> !ds.DoneAfter(j) && !env.cancelled(j)
  }

  /** Whoever runs a continuous dataset cancels it at some time. */
  ghost predicate Stops(ds: Dataset, env: Environment) {
    ds.Continuous() ==> exists k: nat :: env.cancelled(k)
  }

  /** getCollection throws for none of the keys the iterator comes to. */
  ghost predicate Routable(opts: HandleOptions, ds: Dataset) {
    forall idx: nat :: idx < ds.Count() || (idx == 0 && ds.Continuous()) ==> GetCollection(opts, ds.KeyAt(idx)).Some?
  }

  function SubmissionAt(opts: HandleOptions, ds: Dataset, k: nat): Submission {
    var key := ds.KeyAt(ds.IndexAfter(k));
    Submission(key, GetCollection(opts, key))
  }

  /** What an operation has handed to the cluster after n items. */
  function Submissions(opts: HandleOptions, ds: Dataset, n: nat): seq<Submission> {
    seq(n, k requires k >= 0 => SubmissionAt(opts, ds, k))
  }

  /** `log` holds the results of the first submissions and `pending` the futures
      of the others, n in all. */
  ghost predicate Consistent(env: Environment, log: seq<Event>, remaining: int, pending: seq<Future>, n: nat) {
    && remaining == |pending| && n == |log| + |pending|
    && log == Recorded(env, |log|)
    && forall k :: 0 <= k < |pending| ==> pending[k].ec == env.outcome(|log| + k)
  }

  lemma ConsistentPush(env: Environment, log: seq<Event>, remaining: int, pending: seq<Future>, n: nat)
    requires Consistent(env, log, remaining, pending, n)
    ensures Consistent(env, log, remaining + 1, pending + [Future(env.outcome(n))], n + 1)
  {
  }

  lemma ConsistentDrain(env: Environment, log: seq<Event>, remaining: int, pending: seq<Future>, n: nat)
    requires Consistent(env, log, remaining, pending, n)
    ensures log + Drained(env, pending, |log|) == Recorded(env, n)
    ensures Consistent(env, log + Drained(env, pending, |log|), 0, [], n)
  {
  }

  lemma SubmissionsNext(opts: HandleOptions, ds: Dataset, n: nat)
    ensures Submissions(opts, ds, n + 1) == Submissions(opts, ds, n) + [SubmissionAt(opts, ds, n)]
  {
    hide SubmissionAt;
  }

  datatype MutateCommand = MutateAdd | MutateSet | MutateReplace | MutateAppend | MutatePrepend | NotAMutation

  /** The sub-document commands dsSDSinglePath knows. */
  predicate Recognised(command: string) {
    command in {"get", "get_multi", "replace", "dict_add", "dict_upsert", "array_add", "array_add_last", "counter"}
  }

  /** Every item pushes a future, except that dsSDSinglePath pushes none for a
      command it does not know. */
  predicate PushesAll(subdoc: bool, ds: Dataset) {
    !subdoc || Recognised(ds.Command())
  }

  /** The most futures that are ever pending during n submissions: a batch, or all
      of them without iterwait. */
  function PeakOf(iterwait: nat, n: nat): nat {
    if 0 < iterwait < n then iterwait else n
  }

  class Handle {
    const options: HandleOptions
    var pendingFutures: seq<Future>
    var doCancel: bool
    ghost var submitted: seq<Submission>  // by the current operation
    ghost var peak: nat                   // most futures pending since it began

    constructor (options: HandleOptions)
      ensures this.options == options && pendingFutures == [] && !doCancel && submitted == [] && peak == 0
    {
      this.options := options;
      pendingFutures := [];
      doCancel := false;
      submitted, peak := [], 0;
    }

    method CancelCurrent()
      modifies this`doCancel
      ensures doCancel
    {
      doCancel := true;
    }

    /** drainPendingFutures with setRescode as the handler. `from` counts the
        results recorded before, and so tells which clock readings come next. */
    method DrainPendingFutures(rs: ResultSet, env: Environment, from: nat)
      requires rs.Valid() && from == |rs.log|
      modifies this`pendingFutures, rs
      ensures pendingFutures == [] && rs.Valid()
      ensures rs.log == old(rs.log) + Drained(env, old(pendingFutures), |old(rs.log)|)
      ensures rs.remaining == old(rs.remaining) - |old(pendingFutures)|
      ensures rs.options == if old(pendingFutures) == [] then old(rs.options)
                            else old(rs.options).(timeres := StepOf(old(rs.options).timeres))
    {
      hide Represents;
      var i := 0;
      while i < |pendingFutures|
        invariant i <= |pendingFutures| && pendingFutures == old(pendingFutures) && rs.Valid()
        invariant rs.log == old(rs.log) + Drained(env, pendingFutures, from)[..i]
        invariant rs.remaining == old(rs.remaining) - i
        invariant rs.options == if i == 0 then old(rs.options)
                                else old(rs.options).(timeres := StepOf(old(rs.options).timeres))
      {
        ghost var d := Drained(env, pendingFutures, from);
        assert d[..i + 1] == d[..i] + [d[i]];
        rs.SetRescode(pendingFutures[i].ec, env.clock(from + i));
        i := i + 1;
      }
      pendingFutures := [];
    }

    /** drainPendingFutures with a handler that only looks for errors. */
    method DrainChecked() returns (ok: bool)
      modifies this`pendingFutures
      ensures pendingFutures == []
      ensures ok <==> forall k :: 0 <= k < |old(pendingFutures)| ==> old(pendingFutures)[k].ec.Success?
    {
      ok := true;
      var i := 0;
      while i < |pendingFutures|
        invariant i <= |pendingFutures| && pendingFutures == old(pendingFutures)
        invariant ok <==> forall k :: 0 <= k < i ==> pendingFutures[k].ec.Success?
      {
        ok := ok && pendingFutures[i].ec.Success?;
        i := i + 1;
      }
      pendingFutures := [];
    }

    method Postsubmit(rs: ResultSet, env: Environment, from: nat, nsubmit: nat) returns (buffered: bool)
      requires rs.Valid() && from == |rs.log|
      modifies this`pendingFutures, rs
      ensures rs.Valid()
      ensures var total, wait := old(rs.remaining) + nsubmit, old(rs.options).iterwait;
              buffered <==> wait == 0 || 0 < total < wait
      ensures buffered ==>
                && pendingFutures == old(pendingFutures) && rs.log == old(rs.log) && rs.options == old(rs.options)
                && rs.remaining == old(rs.remaining) + nsubmit
      ensures !buffered ==>
                && pendingFutures == []
                && rs.log == old(rs.log) + Drained(env, old(pendingFutures), |old(rs.log)|)
                && rs.remaining == old(rs.remaining) + nsubmit - |old(pendingFutures)|
                && rs.options == if old(pendingFutures) == [] then old(rs.options)
                                 else old(rs.options).(timeres := StepOf(old(rs.options).timeres))
    {
      hide Represents, Drained;
      rs.remaining := rs.remaining + nsubmit;
      if rs.options.iterwait == 0 {
        return true;
      }
      if rs.remaining > 0 && rs.remaining < rs.options.iterwait {
        return true;
      }
      DrainPendingFutures(rs, env, from);
      return false;
    }

    method CollectResult(rs: ResultSet, env: Environment, from: nat)
      requires rs.Valid() && from == |rs.log|
      modifies this`pendingFutures, rs
      ensures rs.Valid()
      ensures old(rs.remaining) == 0 ==>
                && pendingFutures == old(pendingFutures) && rs.log == old(rs.log)
                && rs.remaining == 0 && rs.options == old(rs.options)
      ensures old(rs.remaining) != 0 ==>
                && pendingFutures == []
                && rs.log == old(rs.log) + Drained(env, old(pendingFutures), |old(rs.log)|)
                && rs.remaining == old(rs.remaining) - |old(pendingFutures)|
                && rs.options == if old(pendingFutures) == [] then old(rs.options)
                                 else old(rs.options).(timeres := StepOf(old(rs.options).timeres))
    {
      hide Represents, Drained;
      if rs.remaining == 0 {
        return;
      }
      DrainPendingFutures(rs, env, from);
    }

    /** The pending futures and the results so far are those of the first n
        submissions, if every item pushes a future; otherwise n items were only
        counted. */
    ghost predicate InFlight(rs: ResultSet, env: Environment, n: nat, pushes: bool)
      reads this, rs
    {
      && rs.Valid()
      && if pushes then Consistent(env, rs.log, rs.remaining, pendingFutures, n)
         else pendingFutures == [] && rs.log == [] && rs.remaining == n
    }

    /** The options after n results. */
    static function OptionsAfter(options: ResultOptions, results: int): ResultOptions {
      if results <= 0 then options else options.(timeres := StepOf(options.timeres))
    }

    /** What dsGet, dsMutate, dsKeyop and dsSDSinglePath (`subdoc`) share, from
        start() to collect_result: every item is submitted if its command is
        known, and counted in any case. */
    method SubmitAll(ds: Dataset, rs: ResultSet, env: Environment, subdoc: bool) returns (n: nat)
      requires pendingFutures == [] && !doCancel && submitted == [] && peak == 0
      requires rs.Valid() && rs.log == [] && rs.remaining == 0
      requires Stops(ds, env) && Routable(options, ds)
      modifies this, rs
      ensures StopsAt(ds, env, n)
      ensures pendingFutures == [] && rs.Valid()
      ensures rs.log == (if PushesAll(subdoc, ds) then Recorded(env, n) else [])
      ensures rs.remaining == if PushesAll(subdoc, ds) then 0 else n
      ensures rs.options == OptionsAfter(old(rs.options), |rs.log|)
      ensures submitted == if PushesAll(subdoc, ds) then Submissions(options, ds, n) else []
      ensures peak == if PushesAll(subdoc, ds) then PeakOf(old(rs.options).iterwait, n) else 0
    {
      hide Represents, GetCollection, Submissions, Recorded, Consistent, Drained, StopsAt, PushesAll;
      n := SubmitLoop(ds, rs, env, subdoc);
      FinishAll(rs, env, n, PushesAll(subdoc, ds));
    }

    /** collect_result after n items. */
    method FinishAll(rs: ResultSet, env: Environment, n: nat, pushes: bool)
      requires InFlight(rs, env, n, pushes)
      modifies this`pendingFutures, rs
      ensures pendingFutures == [] && rs.Valid()
      ensures rs.log == (if pushes then Recorded(env, n) else [])
      ensures rs.remaining == if pushes then 0 else n
      ensures rs.options == OptionsAfter(old(rs.options), |rs.log| - |old(rs.log)|) && |rs.log| >= |old(rs.log)|
    {
      hide Represents, Recorded, Consistent, Drained, StepOf;
      if pushes {
        ConsistentSize(env, rs.log, rs.remaining, pendingFutures, n);
        ConsistentDrain(env, rs.log, rs.remaining, pendingFutures, n);
        DrainedSize(env, pendingFutures, |rs.log|);
        CollectResult(rs, env, n - |pendingFutures|);
      } else {
        DrainedNone(env, 0);
        CollectResult(rs, env, 0);
      }
    }

    /** The loop over the dataset. */
    method SubmitLoop(ds: Dataset, rs: ResultSet, env: Environment, subdoc: bool) returns (n: nat)
      requires pendingFutures == [] && !doCancel && submitted == [] && peak == 0
      requires rs.Valid() && rs.log == [] && rs.remaining == 0
      requires Stops(ds, env) && Routable(options, ds)
      modifies this, rs
      ensures StopsAt(ds, env, n) && InFlight(rs, env, n, PushesAll(subdoc, ds))
      ensures rs.options == OptionsAfter(old(rs.options), |rs.log|)
      ensures submitted == if PushesAll(subdoc, ds) then Submissions(options, ds, n) else []
      ensures peak == if PushesAll(subdoc, ds) then PeakOf(old(rs.options).iterwait, n) else 0
    {
      hide Represents, GetCollection, Submissions, Recorded, Consistent, Drained, Routable, PeakOf, StepOf, Recognised;
      hide Dataset.KeyAt, Dataset.ValueAt, Dataset.IndexAfter, Dataset.Command;
      ghost var opts, pushes := rs.options, PushesAll(subdoc, ds);
      ghost var stop := FirstStop(ds, env);
      var iter := new DatasetIterator(ds);
      iter.Start();
      n := 0;
      NothingYet(options, ds, env);
      PeakNothing(opts.iterwait);
      hide StopsAt, PeakIs, InFlight;
      while true
        invariant fresh(iter) && iter.data == ds && n <= stop && StopsAt(ds, env, stop) && !doCancel
        invariant Looping(iter, rs, env, opts, n, pushes)
        decreases stop - n
      {
        StopsBy(ds, env, stop, n);
        var done := iter.Done();
        if env.cancelled(n) {
          CancelCurrent();
        }
        if done || doCancel {
          break;
        }
        VisitedRoutes(options, ds, n);
        var pushes' := true;
        if subdoc {
          pushes' := Known(iter.curc);
        }
        Turn(iter, rs, env, opts, n, pushes');
        n := n + 1;
      }
    }

    /** The branches of dsSDSinglePath. */
    static method Known(command: string) returns (known: bool)
      ensures known <==> Recognised(command)
    {
      if command == "get" || command == "get_multi" {
        known := true;
      } else if command == "replace" {
        known := true;
      } else if command == "dict_add" || command == "dict_upsert" {
        known := true;
      } else if command == "array_add" || command == "array_add_last" {
        known := true;
      } else {
        known := command == "counter";
      }
    }

    /** The loop has handled n items. */
    ghost predicate Looping(iter: DatasetIterator, rs: ResultSet, env: Environment, opts: ResultOptions, n: nat,
                            pushes: bool)
      reads this, rs, iter
    {
      && iter.Valid() && iter.steps == n && InFlight(rs, env, n, pushes)
      && rs.options == OptionsAfter(opts, |rs.log|)
      && submitted == (if pushes then Submissions(options, iter.data, n) else [])
      && if pushes then PeakIs(opts.iterwait, n, |pendingFutures|, peak) else peak == 0
    }

    /** One turn of the loop, to its advance(). */
    method Turn(iter: DatasetIterator, rs: ResultSet, env: Environment, ghost opts: ResultOptions, n: nat, pushes: bool)
      requires Looping(iter, rs, env, opts, n, pushes) && GetCollection(options, iter.curk).Some?
      modifies this`pendingFutures, this`submitted, this`peak, rs, iter
      ensures Looping(iter, rs, env, opts, n + 1, pushes)
    {
      hide Represents, GetCollection, Submissions, PeakIs, InFlight, StepOf;
      hide Dataset.KeyAt, Dataset.ValueAt, Dataset.IndexAfter, Dataset.Command;
      OptionsTwice(opts, |rs.log|);
      SubmitItem(iter, rs, env, n, pushes);
      iter.Advance();
    }

    /** The first lines of every operation. */
    method Begin(rs: ResultSet, options: ResultOptions)
      modifies this, rs
      ensures rs.Valid() && rs.log == [] && rs.remaining == 0 && rs.options == options
      ensures !doCancel && submitted == [] && peak == 0 && pendingFutures == old(pendingFutures)
    {
      hide Represents;
      rs.options := options;
      rs.Clear();
      doCancel := false;
      submitted, peak := [], 0;
    }

    /** An operation that pushes a future for every item has ended after n items:
        nothing is pending, every submission is recorded in order, and as many
        futures were pending at most as a batch or, without iterwait, the items. */
    ghost predicate Ended(ds: Dataset, rs: ResultSet, options: ResultOptions, env: Environment, n: nat)
      reads this, rs
    {
      && pendingFutures == [] && rs.Valid() && rs.remaining == 0
      && StopsAt(ds, env, n)
      && rs.log == Recorded(env, n)
      && submitted == Submissions(this.options, ds, n)
      && rs.options == OptionsAfter(options, n)
      && peak == PeakOf(options.iterwait, n)
    }

    method DsGet(ds: Dataset, rs: ResultSet, options: ResultOptions, env: Environment) returns (ok: bool, ghost n: nat)
      requires pendingFutures == [] && Stops(ds, env) && Routable(this.options, ds)
      modifies this, rs
      ensures ok && Ended(ds, rs, options, env, n)
    {
      hide Represents, GetCollection, Routable, StopsAt, Stops, Submissions;
      Begin(rs, options);
      n := SubmitAll(ds, rs, env, false);
      ok := true;
    }

    method DsMutate(cmd: MutateCommand, ds: Dataset, rs: ResultSet, options: ResultOptions, env: Environment)
      returns (ok: bool, ghost n: nat)
      requires pendingFutures == [] && Stops(ds, env) && Routable(this.options, ds)
      modifies this, rs
      ensures ok <==> cmd != NotAMutation
      ensures ok ==> Ended(ds, rs, options, env, n)
      ensures !ok ==> pendingFutures == [] && rs.Valid() && rs.log == [] && rs.remaining == 0 && submitted == [] && peak == 0
    {
      hide Represents, GetCollection, Routable, StopsAt, Stops, Submissions;
      Begin(rs, options);
      if cmd == NotAMutation {
        return false, 0;
      }
      n := SubmitAll(ds, rs, env, false);
      ok := true;
    }

    method DsKeyop(ds: Dataset, rs: ResultSet, options: ResultOptions, env: Environment) returns (ok: bool, ghost n: nat)
      requires pendingFutures == [] && Stops(ds, env) && Routable(this.options, ds)
      modifies this, rs
      ensures ok && Ended(ds, rs, options, env, n)
    {
      hide Represents, GetCollection, Routable, StopsAt, Stops, Submissions;
      Begin(rs, options);
      n := SubmitAll(ds, rs, env, false);
      ok := true;
    }

    /** The command comes from the dataset. With one it does not know,
        dsSDSinglePath counts every item but submits none, so `remaining` ends at
        the number of items. */
    method DsSDSinglePath(ds: Dataset, rs: ResultSet, options: ResultOptions, env: Environment)
      returns (ok: bool, ghost n: nat)
      requires pendingFutures == [] && Stops(ds, env) && Routable(this.options, ds)
      modifies this, rs
      ensures ok && StopsAt(ds, env, n)
      ensures Recognised(ds.Command()) ==> Ended(ds, rs, options, env, n)
      ensures !Recognised(ds.Command()) ==>
                && pendingFutures == [] && rs.Valid() && rs.log == [] && submitted == [] && peak == 0
                && rs.options == options
      ensures rs.remaining == if Recognised(ds.Command()) then 0 else n
    {
      hide Represents, GetCollection, Routable, StopsAt, Stops, Submissions, Recognised;
      Begin(rs, options);
      n := SubmitAll(ds, rs, env, true);
      ok := true;
    }

    /** Routes a key and pushes the future of its operation. */
    method Push(ds: Dataset, k: nat, key: string, ec: ErrorCode)
      requires key == ds.KeyAt(ds.IndexAfter(k)) && GetCollection(options, key).Some?
      modifies this`pendingFutures, this`submitted, this`peak
      ensures pendingFutures == old(pendingFutures) + [Future(ec)]
      ensures submitted == old(submitted) + [SubmissionAt(options, ds, k)]
      ensures peak == Max(old(peak), |pendingFutures|)
    {
      hide GetCollection;
      var collection := GetCollection(options, key);
      submitted := submitted + [Submission(key, Some(collection.value))];
      pendingFutures := pendingFutures + [Future(ec)];
      peak := Max(peak, |pendingFutures|);
    }

    /** One turn of the loop. */
    method SubmitItem(iter: DatasetIterator, rs: ResultSet, env: Environment, n: nat, pushes: bool)
      requires InFlight(rs, env, n, pushes)
      requires iter.Valid() && iter.steps == n && GetCollection(options, iter.curk).Some?
      requires submitted == if pushes then Submissions(options, iter.data, n) else []
      requires if pushes then PeakIs(rs.options.iterwait, n, |pendingFutures|, peak) else peak == 0
      modifies this`pendingFutures, this`submitted, this`peak, rs
      ensures InFlight(rs, env, n + 1, pushes) && |rs.log| >= |old(rs.log)|
      ensures rs.options == OptionsAfter(old(rs.options), |rs.log| - |old(rs.log)|)
      ensures submitted == if pushes then Submissions(options, iter.data, n + 1) else []
      ensures if pushes then PeakIs(rs.options.iterwait, n + 1, |pendingFutures|, peak) else peak == 0
    {
      hide Represents, GetCollection, StepOf, Submissions, SubmissionAt, Drained, Consistent, PeakIs;
      if !pushes {
        var _ := Postsubmit(rs, env, 0, 1);
        DrainedNone(env, 0);
        return;
      }
      ConsistentSize(env, rs.log, rs.remaining, pendingFutures, n);
      var from := n - |pendingFutures|;
      SubmissionsNext(options, iter.data, n);
      ConsistentPush(env, rs.log, rs.remaining, pendingFutures, n);
      PeakNext(rs.options.iterwait, n, |pendingFutures|, peak);
      Push(iter.data, n, iter.curk, env.outcome(n));
      ConsistentDrain(env, rs.log, rs.remaining + 1, pendingFutures, n + 1);
      ConsistentSize(env, rs.log, rs.remaining + 1, pendingFutures, n + 1);
      DrainedSize(env, pendingFutures, |rs.log|);
      var _ := Postsubmit(rs, env, from, 1);
    }
  }

  /** More results change the options no further. */
  lemma OptionsTwice(options: ResultOptions, a: nat)
    ensures forall b: nat :: b >= a ==>
              Handle.OptionsAfter(Handle.OptionsAfter(options, a), b - a) == Handle.OptionsAfter(options, b)
    ensures Handle.OptionsAfter(options, a).iterwait == options.iterwait
  {
  }

  /** After n submissions this many futures are pending, and at most peak were. */
  ghost predicate PeakIs(iterwait: nat, n: nat, pending: nat, peak: nat) {
    && peak == PeakOf(iterwait, n)
    && (iterwait == 0 || n < iterwait ==> pending == n)
    && (iterwait > 0 ==> pending < iterwait)
  }

  lemma PeakNothing(iterwait: nat)
    ensures PeakIs(iterwait, 0, 0, 0)
  {
  }

  lemma PeakNext(iterwait: nat, n: nat, pending: nat, peak: nat)
    requires PeakIs(iterwait, n, pending, peak)
    ensures PeakIs(iterwait, n + 1, if iterwait == 0 || pending + 1 < iterwait then pending + 1 else 0,
                   Max(peak, pending + 1))
  {
  }

  function Max(a: nat, b: nat): nat {
    if a > b then a else b
  }

  lemma DrainedSize(env: Environment, futures: seq<Future>, from: nat)
    ensures |Drained(env, futures, from)| == |futures|
  {
  }

  lemma NothingYet(opts: HandleOptions, ds: Dataset, env: Environment)
    ensures Submissions(opts, ds, 0) == [] && Recorded(env, 0) == [] && Consistent(env, [], 0, [], 0)
  {
  }

  lemma VisitedRoutes(opts: HandleOptions, ds: Dataset, n: nat)
    requires Routable(opts, ds) && !ds.DoneAfter(n)
    ensures GetCollection(opts, ds.KeyAt(ds.IndexAfter(n))).Some?
  {
    hide GetCollection;
    IndexAfterClosedForm(ds, n);
    if ds.Continuous() && ds.Count() > 0 {
      ModLess(n, ds.Count());
    }
  }

  lemma DrainedNone(env: Environment, from: nat)
    ensures Drained(env, [], from) == []
  {
  }

  lemma ConsistentSize(env: Environment, log: seq<Event>, remaining: int, pending: seq<Future>, n: nat)
    requires Consistent(env, log, remaining, pending, n)
    ensures remaining == |pending| && n == |log| + |pending|
  {
  }

  lemma FirstStop(ds: Dataset, env: Environment) returns (n: nat)
    requires Stops(ds, env)
    ensures StopsAt(ds, env, n)
  {
    var bound: nat;
    if ds.Continuous() {
      bound :| env.cancelled(bound);
    } else {
      bound := ds.Count();
      IndexAfterClosedForm(ds, bound);
    }
    n := 0;
    while !ds.DoneAfter(n) && !env.cancelled(n)
      invariant n <= bound
      invariant forall j: nat :: j < n ==> !ds.DoneAfter(j) && !env.cancelled(j)
      decreases bound - n
    {
      n := n + 1;
    }
  }

  lemma StopsBy(ds: Dataset, env: Environment, stop: nat, n: nat)
    requires StopsAt(ds, env, stop) && n <= stop
    ensures ds.DoneAfter(n) || env.cancelled(n) ==> StopsAt(ds, env, n) && n == stop
    ensures !ds.DoneAfter(n) && !env.cancelled(n) ==> n < stop
  {
  }

  /* ---- properties of every operation ---- */

  /** Without collections every dataset routes, and everything goes to the default
      collection. */
  lemma WithoutCollections(opts: HandleOptions, ds: Dataset, n: nat)
    requires !opts.useCollections
    ensures Routable(opts, ds)
    ensures forall k :: 0 <= k < n ==>
              Submissions(opts, ds, n)[k] == Submission(ds.KeyAt(ds.IndexAfter(k)), Some(("_default", "_default")))
  {
    hide GetCollection;
    forall idx: nat
      ensures GetCollection(opts, ds.KeyAt(idx)) == Some(("_default", "_default"))
    {
      DefaultIff(opts, ds.KeyAt(idx));
    }
  }

  /** An operation has one item to stop at. */
  lemma StopsAtUnique(ds: Dataset, env: Environment, m: nat, n: nat)
    requires StopsAt(ds, env, m) && StopsAt(ds, env, n)
    ensures m == n
  {
    assert m < n ==> !ds.DoneAfter(m) && !env.cancelled(m);
    assert n < m ==> !ds.DoneAfter(n) && !env.cancelled(n);
  }

  /** A finite dataset is submitted completely exactly when no cancel step lands
      before its last item is submitted. */
  lemma CompleteIff(ds: Dataset, env: Environment, n: nat)
    requires StopsAt(ds, env, n) && !ds.Continuous()
    ensures n <= ds.Count()
    ensures n == ds.Count() <==> forall k: nat :: k < ds.Count() ==> !env.cancelled(k)
  {
    IndexAfterClosedForm(ds, n);
    if n > ds.Count() {
      IndexAfterClosedForm(ds, ds.Count());
    }
  }

  /** The counters depend on the error codes alone: neither the batch size nor
      the clock enters. */
  lemma {:induction false} StatsFromOutcomes(a: Environment, b: Environment, n: nat)
    requires forall k: nat :: k < n ==> a.outcome(k) == b.outcome(k)
    ensures Tally(Recorded(a, n)) == Tally(Recorded(b, n))
  {
    if n > 0 {
      StatsFromOutcomes(a, b, n - 1);
      assert Front(Recorded(a, n)) == Recorded(a, n - 1);
      assert Front(Recorded(b, n)) == Recorded(b, n - 1);
    }
  }

  function ReportedCount(windows: seq<WindowReport>): nat {
    if windows == [] then 0 else ReportedCount(windows[..|windows| - 1]) + windows[|windows| - 1].count
  }

  lemma {:induction false} ReportedCountIs(windows: seq<WindowReport>, h: seq<TimeWindow>)
    requires |windows| == |h| && forall w :: 0 <= w < |h| ==> windows[w].count == h[w].count
    ensures ReportedCount(windows) == SumCounts(h)
  {
    if h != [] {
      ReportedCountIs(windows[..|windows| - 1], Front(h));
    }
  }

  /** Conservation from dataset to report: the counters and the window counts of
      the report both add up to the number of items submitted, the only number the
      operation can stop at, which for a finite dataset without cancellation is
      its size. */
  lemma EndToEnd(ds: Dataset, env: Environment, options: ResultOptions, factor: nat -> int, n: nat)
    requires StopsAt(ds, env, n)
    ensures var report := ReportOf(Handle.OptionsAfter(options, n).timeres, Recorded(env, n), factor);
            && MapSum(report.stats) == n
            && (n > 0 ==> report.timings.Some? && ReportedCount(report.timings.value.windows) == n)
            && (!ds.Continuous() && (forall k: nat :: k < ds.Count() ==> !env.cancelled(k)) ==> n == ds.Count())
            && (forall m: nat :: StopsAt(ds, env, m) ==> m == n)
  {
    var timeres := Handle.OptionsAfter(options, n).timeres;
    var step, log := StepOf(timeres), Recorded(env, n);
    Conservation(step, log, "success");
    if n > 0 {
      ReportedWindows(timeres, log, factor);
      ReportedCountIs(ReportOf(timeres, log, factor).timings.value.windows, Histogram(step, log));
    }
    if !ds.Continuous() {
      CompleteIff(ds, env, n);
    }
    hide StopsAt;
    forall m: nat | StopsAt(ds, env, m)
      ensures m == n
    {
      StopsAtUnique(ds, env, m, n);
    }
  }

  /* ---- the request as a whole ---- */

  type Mutation = cmd: MutateCommand | cmd != NotAMutation witness MutateSet

  /** The commands of processRequest on a dataset; Unimplemented are those its
      switch does not know. */
  datatype Operation = Get | Mutate(cmd: Mutation) | Keyop | SubDocRun | Unimplemented

  /** Every item of the request becomes a submission. */
  predicate Submits(op: Operation, ds: Dataset) {
    op != Unimplemented && (op == SubDocRun ==> Recognised(ds.Command()))
  }

  datatype Response = Rejected | NotImplemented | Reported(report: Report)

  /** "Continuous must be used with IterWait", which is asked of seeded datasets
      only. */
  predicate Accepted(ds: Dataset, options: ResultOptions) {
    !(ds.Seeded? && options.iterwait == 0 && ds.Continuous())
  }

  /* ---- how many futures are in flight ---- */

  /** The most futures that are ever pending during a request that handles n items. */
  function RequestPeak(op: Operation, ds: Dataset, iterwait: nat, n: nat): nat {
    if Submits(op, ds) then PeakOf(iterwait, n) else 0
  }

  /** Whenever the request stops, at most `bound` futures were pending at a time. */
  ghost predicate InFlightWithin(op: Operation, ds: Dataset, iterwait: nat, bound: nat) {
    forall env: Environment, n: nat :: StopsAt(ds, env, n) ==> RequestPeak(op, ds, iterwait, n) <= bound
  }

  /** A batch is the bound, or the dataset when there are no batches; exactly for
      submissions of a continuous dataset without batches neither that nor any
      other bound holds. */
  lemma InFlightIff(op: Operation, ds: Dataset, iterwait: nat)
    ensures InFlightWithin(op, ds, iterwait, if iterwait > 0 then iterwait else ds.Count())
            <==> !(Submits(op, ds) && ds.Continuous() && iterwait == 0)
    ensures (exists bound :: InFlightWithin(op, ds, iterwait, bound))
            <==> !(Submits(op, ds) && ds.Continuous() && iterwait == 0)
  {
    hide InFlightWithin;
    if Submits(op, ds) && ds.Continuous() && iterwait == 0 {
      forall bound: nat {
        PilesUp(op, ds, bound);
      }
    } else {
      WithinBatch(op, ds, iterwait);
    }
  }

  lemma WithinBatch(op: Operation, ds: Dataset, iterwait: nat)
    requires !(Submits(op, ds) && ds.Continuous() && iterwait == 0)
    ensures InFlightWithin(op, ds, iterwait, if iterwait > 0 then iterwait else ds.Count())
  {
    hide StopsAt, Submits;
    forall env: Environment, n: nat | StopsAt(ds, env, n)
      ensures RequestPeak(op, ds, iterwait, n) <= if iterwait > 0 then iterwait else ds.Count()
    {
      if Submits(op, ds) && iterwait == 0 {
        CompleteIff(ds, env, n);
      }
    }
  }

  /** Cancelled late enough, a continuous dataset without batches exceeds any bound. */
  lemma PilesUp(op: Operation, ds: Dataset, bound: nat)
    requires Submits(op, ds) && ds.Continuous()
    ensures !InFlightWithin(op, ds, 0, bound)
  {
    hide Submits;
    var env := Environment(k => Success, k => Tick(0, 0), k => k > bound);
    assert StopsAt(ds, env, bound + 1);
    assert RequestPeak(op, ds, 0, bound + 1) > bound;
  }

  /** The guard keeps the futures in flight bounded exactly for the datasets it
      looks at: an accepted request can have any number of them in flight exactly
      if it submits the items of a continuous sub-document or N1QL dataset without
      iterwait. */
  lemma GuardBounds(op: Operation, ds: Dataset, options: ResultOptions)
    requires Accepted(ds, options)
    ensures (exists bound :: InFlightWithin(op, ds, options.iterwait, bound))
            <==> !(Submits(op, ds) && (ds.SubDoc? || ds.Records?) && ds.Continuous() && options.iterwait == 0)
  {
    InFlightIff(op, ds, options.iterwait);
  }

  /** Such a request: one sub-document lookup over and over, without iterwait. */
  lemma AcceptedUnbounded(bound: nat)
    ensures var ds := SubDoc(SubDocSpec(1, true, false, "get", "path", ""));
            && (forall options: ResultOptions :: Accepted(ds, options))
            && Submits(SubDocRun, ds) && !InFlightWithin(SubDocRun, ds, 0, bound)
  {
    PilesUp(SubDocRun, SubDoc(SubDocSpec(1, true, false, "get", "path", "")), bound);
  }

  /** processRequest for the operations on datasets. */
  method ProcessRequest(h: Handle, op: Operation, ds: Dataset, options: ResultOptions, env: Environment,
                        factor: nat -> int)
    returns (response: Response, ghost n: nat)
    requires h.pendingFutures == []
    requires Accepted(ds, options) && op != Unimplemented ==> Stops(ds, env) && Routable(h.options, ds)
    modifies h
    ensures h.pendingFutures == []
    ensures response == Rejected <==> ds.Seeded? && ds.seed.continuous && options.iterwait == 0
    ensures response == NotImplemented <==> op == Unimplemented && response != Rejected
    ensures response == Rejected || response == NotImplemented ==> h.submitted == old(h.submitted)
    ensures response.Reported? ==> StopsAt(ds, env, n) && h.peak == RequestPeak(op, ds, options.iterwait, n)
    ensures response.Reported? && Submits(op, ds) ==>
              && response == Reported(ReportOf(Handle.OptionsAfter(options, n).timeres, Recorded(env, n), factor))
              && h.submitted == Submissions(h.options, ds, n)
    ensures response.Reported? && !Submits(op, ds) ==>
              response == Reported(ReportOf(options.timeres, [], factor)) && h.submitted == []
  {
    hide Represents, GetCollection, Routable, StopsAt, Stops, Submissions, ReportOf, PeakOf, Recognised;
    if !Accepted(ds, options) {
      return Rejected, 0;
    }
    var rs := new ResultSet();
    var ok;
    match op {
      case Get =>
        ok, n := h.DsGet(ds, rs, options, env);
      case Mutate(cmd) =>
        ok, n := h.DsMutate(cmd, ds, rs, options, env);
      case Keyop =>
        ok, n := h.DsKeyop(ds, rs, options, env);
      case SubDocRun =>
        ok, n := h.DsSDSinglePath(ds, rs, options, env);
      case Unimplemented =>
        return NotImplemented, 0;
    }
    assert ok;  // an unknown mutation does not get here
    var report := rs.ResultsJson(factor);
    response := Reported(report);
  }
}
