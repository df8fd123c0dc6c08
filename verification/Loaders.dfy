/** The loaders: N1QL, SD, FTS and CBAS share one loop, the view loader has its own. */
module Loaders {
  import opened Datasets
  import opened Routing
  import opened Timeline
  import opened Results
  import opened Pipeline

  const BATCH: nat := 100

  /** Of the first n items, those whose futures were drained by a check inside
      the loop: the checks come after items 0, 100, 200, ... */
  function Checked(n: nat): (c: nat)
    ensures c <= n <= c + BATCH - 1
  {
    if n == 0 then 0 else (n - 1) / BATCH * BATCH + 1
  }

  /** A check drains the items up to the one after which it comes. */
  lemma CheckedMeaning(n: nat, k: nat)
    ensures k < Checked(n) <==> exists m: nat :: k <= m < n && m % 100 == 0
  {
    if k < Checked(n) {
      var m := (n - 1) / 100 * 100;
      assert k <= m < n && m % 100 == 0;
    }
    forall m: nat | m < n && m % 100 == 0
      ensures m < Checked(n)
    {
      assert m / 100 <= (n - 1) / 100;
    }
  }

  lemma CheckedNext(n: nat)
    ensures Checked(n + 1) == if n % BATCH == 0 then n + 1 else Checked(n)
  {
  }

  ghost predicate AllSucceed(env: Environment, from: nat, to: nat) {
    forall k: nat :: from <= k < to ==> env.outcome(k).Success?
  }

  /** The pending futures are those of the items since the last check, and
      nothing before it failed. */
  ghost predicate Loading(env: Environment, pending: seq<Future>, n: nat) {
    && |pending| == n - Checked(n)
    && (forall k :: 0 <= k < |pending| ==> pending[k].ec == env.outcome(Checked(n) + k))
    && AllSucceed(env, 0, Checked(n))
  }

  ghost predicate NoneFailed(futures: seq<Future>) {
    forall k :: 0 <= k < |futures| ==> futures[k].ec.Success?
  }

  /** The futures since the last check, with the next one. */
  lemma BatchIs(env: Environment, pending: seq<Future>, n: nat)
    requires Loading(env, pending, n)
    ensures var batch := pending + [Future(env.outcome(n))];
            && |batch| == n + 1 - Checked(n) <= BATCH
            && forall k :: 0 <= k < |batch| ==> batch[k].ec == env.outcome(Checked(n) + k)
  {
    var c := Checked(n);
    hide Checked, AllSucceed;
  }

  lemma NoneFailedIff(env: Environment, futures: seq<Future>, c: nat)
    requires forall k :: 0 <= k < |futures| ==> futures[k].ec == env.outcome(c + k)
    ensures NoneFailed(futures) <==> AllSucceed(env, c, c + |futures|)
  {
    assert forall k: nat :: c <= k < c + |futures| ==> env.outcome(k) == futures[k - c].ec;
  }

  lemma AllSucceedSplit(env: Environment, a: nat, b: nat, c: nat)
    requires a <= b <= c
    ensures AllSucceed(env, a, c) <==> AllSucceed(env, a, b) && AllSucceed(env, b, c)
  {
  }

  /** Between two checks a future is added; a check looks at all since the last one. */
  lemma LoadingNext(env: Environment, pending: seq<Future>, n: nat)
    requires Loading(env, pending, n)
    ensures var batch := pending + [Future(env.outcome(n))];
            && |batch| <= BATCH
            && (n % BATCH != 0 ==> Loading(env, batch, n + 1))
            && (n % BATCH == 0 ==> Checked(n + 1) == n + 1)
            && (n % BATCH == 0 && NoneFailed(batch) ==> Loading(env, [], n + 1))
            && (n % BATCH == 0 ==> (NoneFailed(batch) <==> AllSucceed(env, Checked(n), n + 1)))
  {
    CheckedNext(n);
    BatchIs(env, pending, n);
    NoneFailedIff(env, pending + [Future(env.outcome(n))], Checked(n));
    AllSucceedSplit(env, 0, Checked(n), n + 1);
    hide Checked, AllSucceed, NoneFailed;
  }

  lemma Unchecked(env: Environment, n: nat, count: nat)
    requires n < count && n % BATCH == 0 && !AllSucceed(env, Checked(n), n + 1)
    ensures !AllSucceed(env, 0, Checked(count))
  {
    CheckedNext(n);
    var k: nat :| Checked(n) <= k < n + 1 && !env.outcome(k).Success?;
    assert Checked(n + 1) <= Checked(count);
  }

  /* ---- when a loader returns ---- */

  /** The loop is left at item n: at the end of the dataset, or because the batch
      checked after it holds a failure. Nothing else ends it; do_cancel is not read. */
  ghost predicate LeavesAt(ds: Dataset, env: Environment, n: nat) {
    ds.DoneAfter(n) || (n % BATCH == 0 && !AllSucceed(env, Checked(n), n + 1))
  }

  ghost predicate LeavesFirstAt(ds: Dataset, env: Environment, n: nat) {
    LeavesAt(ds, env, n) && forall j: nat :: j < n ==> !LeavesAt(ds, env, j)
  }

  /** A loader returns exactly if its dataset is finite or some item fails. */
  lemma ReturnsIff(ds: Dataset, env: Environment)
    ensures (exists n: nat :: LeavesAt(ds, env, n))
            <==> !ds.Continuous() || exists k: nat :: !env.outcome(k).Success?
  {
    if !ds.Continuous() {
      IndexAfterClosedForm(ds, ds.Count());
      assert LeavesAt(ds, env, ds.Count());
    } else if k: nat :| !env.outcome(k).Success? {
      var n := CheckOf(k);
      assert LeavesAt(ds, env, n);
    }
  }

  /** Item k is checked after the next item whose number is a multiple of the batch size. */
  lemma CheckOf(k: nat) returns (n: nat)
    ensures n % BATCH == 0 && Checked(n) <= k < n + 1
  {
    n := (k + BATCH - 1) / BATCH * BATCH;
  }

  /** Whoever loads a continuous dataset has an item that fails. */
  ghost predicate Ends(ds: Dataset, env: Environment) {
    ds.Continuous() ==> exists k: nat :: !env.outcome(k).Success?
  }

  /** No more items than this are handled. */
  lemma LoadBound(ds: Dataset, env: Environment) returns (bound: nat)
    requires Ends(ds, env)
    ensures forall n: nat :: AllSucceed(env, 0, Checked(n)) && (ds.Continuous() || n <= ds.Count()) ==> n <= bound
  {
    bound := ds.Count();
    if ds.Continuous() {
      var k: nat :| !env.outcome(k).Success?;
      bound := k + BATCH;
    }
  }

  lemma NotLeft(ds: Dataset, env: Environment, n: nat)
    requires !ds.DoneAfter(n) && (n % BATCH == 0 ==> AllSucceed(env, Checked(n), n + 1))
    ensures !LeavesAt(ds, env, n)
  {
  }

  /** n items are loaded, after `before`; the iterator is at the next one. */
  ghost predicate Loaded(h: Handle, iter: DatasetIterator, env: Environment, before: seq<Submission>, peak: nat, n: nat)
    reads h, iter
  {
    && iter.Valid() && iter.steps == n && Loading(env, h.pendingFutures, n)
    && h.submitted == before + Submissions(h.options, iter.data, n)
    && h.peak <= Max(peak, BATCH)
  }

  /** The body of the loop for item n. */
  method LoadItem(h: Handle, iter: DatasetIterator, env: Environment, ghost before: seq<Submission>, ghost peak: nat,
                  n: nat)
    returns (good: bool)
    requires Loaded(h, iter, env, before, peak, n) && GetCollection(h.options, iter.curk).Some?
    modifies h, iter
    ensures good <==> (n % BATCH == 0 ==> AllSucceed(env, Checked(n), n + 1))
    ensures good ==> Loaded(h, iter, env, before, peak, n + 1)
    ensures !good ==> h.pendingFutures == [] && h.peak <= Max(peak, BATCH) && Checked(n + 1) == n + 1
    ensures h.submitted == before + Submissions(h.options, iter.data, n + 1)
  {
    hide GetCollection, Submissions, SubmissionAt, AllSucceed, Checked, Loading, NoneFailed;
    hide Dataset.KeyAt, Dataset.ValueAt, Dataset.IndexAfter, DatasetIterator.Valid;
    CurrentKey(iter);
    SubmissionsNext(h.options, iter.data, n);
    LoadingNext(env, h.pendingFutures, n);
    good := true;
    h.Push(iter.data, n, iter.curk, env.outcome(n));
    if n % BATCH == 0 {
      NoneFailedIs(h.pendingFutures);
      good := h.DrainChecked();
    }
    if good {
      iter.Advance();
    }
  }

  /** `populate` of the loaders. It returns at the first item it is left at, and
      reports success exactly if that is the end of the dataset; that is, if the
      dataset is finite and no item up to the last check failed. On failure it has
      submitted nothing past the failing batch; at most a batch is ever pending,
      and nothing is on return. */
  method Populate(h: Handle, ds: Dataset, env: Environment) returns (ok: bool, n: nat)
    requires h.pendingFutures == []
    requires Ends(ds, env) && Routable(h.options, ds)
    modifies h
    ensures h.pendingFutures == [] && h.peak <= Max(old(h.peak), 100)
    ensures h.submitted == old(h.submitted) + Submissions(h.options, ds, n)
    ensures ok <==> !ds.Continuous() && AllSucceed(env, 0, Checked(ds.Count()))
    ensures ok ==> n == ds.Count() && LeavesFirstAt(ds, env, n)
    ensures !ok ==> && n > 0 && LeavesFirstAt(ds, env, n - 1) && (ds.Continuous() || n <= ds.Count())
                    && Checked(n) == n && AllSucceed(env, 0, Checked(n - 1)) && !AllSucceed(env, Checked(n - 1), n)
  {
    hide GetCollection, Submissions, Routable, AllSucceed, Checked, Loading, LeavesAt, Ends, DatasetIterator.Valid;
    var iter := new DatasetIterator(ds);
    iter.Start();
    n := 0;
    NothingYet(h.options, ds, env);
    LoadingNothing(env);
    ghost var bound := LoadBound(ds, env);
    while true
      invariant fresh(iter) && iter.data == ds && Loaded(h, iter, env, old(h.submitted), old(h.peak), n)
      invariant ds.Continuous() || n <= ds.Count()
      invariant forall j: nat :: j < n ==> !LeavesAt(ds, env, j)
      decreases bound + 1 - n
    {
      IndexAfterClosedForm(ds, n);
      LoadingSucceeds(env, h.pendingFutures, n);
      var done := iter.Done();
      if done {
        break;
      }
      CurrentKey(iter);
      VisitedRoutes(h.options, ds, n);
      var good := LoadItem(h, iter, env, old(h.submitted), old(h.peak), n);
      n := n + 1;
      if !good {
        FailedCheck(ds, env, n - 1);
        return false, n;
      }
      NotLeft(ds, env, n - 1);
    }
    LoadingSucceeds(env, h.pendingFutures, n);
    DoneLeaves(ds, env, n);
    var _ := h.DrainChecked();
    ok := true;
  }

  lemma DoneLeaves(ds: Dataset, env: Environment, n: nat)
    requires ds.DoneAfter(n)
    ensures LeavesAt(ds, env, n)
  {
  }

  lemma FailedCheck(ds: Dataset, env: Environment, n: nat)
    requires n % BATCH == 0 && !AllSucceed(env, Checked(n), n + 1)
    ensures LeavesAt(ds, env, n)
    ensures !ds.Continuous() && n < ds.Count() ==> !AllSucceed(env, 0, Checked(ds.Count()))
  {
    if n < ds.Count() {
      Unchecked(env, n, ds.Count());
    }
  }

  lemma CurrentKey(iter: DatasetIterator)
    requires iter.Valid()
    ensures iter.curk == iter.data.KeyAt(iter.data.IndexAfter(iter.steps))
  {
  }

  lemma LoadingNothing(env: Environment)
    ensures Loading(env, [], 0)
  {
  }

  lemma LoadingSucceeds(env: Environment, pending: seq<Future>, n: nat)
    requires Loading(env, pending, n)
    ensures AllSucceed(env, 0, Checked(n))
  {
  }

  lemma NoneFailedIs(futures: seq<Future>)
    ensures NoneFailed(futures) <==> forall k :: 0 <= k < |futures| ==> futures[k].ec.Success?
  {
  }

  /* ---- the view loader ---- */

  const VIEWLOAD_BATCH_COUNT: nat := 1000

  /** What the view loader uploads for item k: its key and sequence number. */
  datatype ViewItem = ViewItem(key: string, sequence: nat)

  function ViewItems(ds: Dataset, n: nat): seq<ViewItem> {
    seq(n, k requires k >= 0 => ViewItem(ds.KeyAt(ds.IndexAfter(k)), k))
  }

  /** The results the view loader records for the first n items: their failures. */
  function Failures(env: Environment, n: nat): seq<Event> {
    if n == 0 then []
    else
      var before := Failures(env, n - 1);
      if env.outcome(n - 1).Success? then before
      else before + [EventOf(env.outcome(n - 1), env.clock(|before|))]
  }

  function FailureCount(env: Environment, n: nat): (c: nat)
    ensures c == |Failures(env, n)| <= n
  {
    if n == 0 then 0 else FailureCount(env, n - 1) + if env.outcome(n - 1).Success? then 0 else 1
  }

  lemma FailuresNext(env: Environment, n: nat)
    ensures var ec := env.outcome(n);
            && FailureCount(env, n) == |Failures(env, n)|
            && Failures(env, n + 1) == Failures(env, n)
                 + (if ec.Success? then [] else [EventOf(ec, env.clock(FailureCount(env, n)))])
            && FailureCount(env, n + 1) == FailureCount(env, n) + if ec.Success? then 0 else 1
  {
  }

  lemma ViewItemsNext(ds: Dataset, n: nat)
    ensures ViewItems(ds, n + 1) == ViewItems(ds, n) + [ViewItem(ds.KeyAt(ds.IndexAfter(n)), n)]
  {
    hide Dataset.KeyAt, Dataset.IndexAfter;
  }

  lemma NothingLoaded(ds: Dataset, env: Environment)
    ensures ViewItems(ds, 0) == [] && Failures(env, 0) == [] && FailureCount(env, 0) == 0
  {
  }

  /** Of the first n items the result set holds the failures alone, so `remaining`
      is minus their number. */
  ghost predicate OnlyFailures(rs: ResultSet, env: Environment, n: nat)
    reads rs
  {
    rs.Valid() && rs.log == Failures(env, n) && rs.remaining + FailureCount(env, n) == 0
  }

  class ViewLoader {
    const handle: Handle
    var values: seq<ViewItem>
    ghost var uploaded: seq<ViewItem>

    constructor (handle: Handle)
      ensures this.handle == handle && values == [] && uploaded == []
    {
      this.handle := handle;
      values, uploaded := [], [];
    }

    /** Uploads the values; the first of them is item `first` of the dataset. */
    method FlushValues(rs: ResultSet, env: Environment, first: nat)
      requires OnlyFailures(rs, env, first)
      modifies this`uploaded, rs
      ensures OnlyFailures(rs, env, first + |values|)
      ensures uploaded == old(uploaded) + values
    {
      hide OnlyFailures;
      var futures := Upload(env, first);
      RecordFailures(futures, rs, env, first);
    }

    method Upload(env: Environment, first: nat) returns (futures: seq<Future>)
      modifies this`uploaded
      ensures uploaded == old(uploaded) + values && |futures| == |values|
      ensures forall k :: 0 <= k < |futures| ==> futures[k].ec == env.outcome(first + k)
    {
      futures := [];
      var i := 0;
      while i < |values|
        invariant i <= |values| && |futures| == i
        invariant uploaded == old(uploaded) + values[..i]
        invariant forall k :: 0 <= k < i ==> futures[k].ec == env.outcome(first + k)
      {
        uploaded := uploaded + [values[i]];
        futures := futures + [Future(env.outcome(first + i))];
        i := i + 1;
      }
    }

    static method RecordFailures(futures: seq<Future>, rs: ResultSet, env: Environment, first: nat)
      requires OnlyFailures(rs, env, first)
      requires forall k :: 0 <= k < |futures| ==> futures[k].ec == env.outcome(first + k)
      modifies rs
      ensures OnlyFailures(rs, env, first + |futures|)
    {
      hide Represents, Failures, FailureCount;
      var i := 0;
      while i < |futures|
        invariant i <= |futures|
        invariant OnlyFailures(rs, env, first + i)
      {
        FailuresNext(env, first + i);
        if futures[i].ec.Failure? {
          rs.SetRescode(futures[i].ec, env.clock(FailureCount(env, first + i)));
        }
        i := i + 1;
      }
    }

    static method ClearThenOptions(rs: ResultSet, options: ResultOptions, env: Environment)
      modifies rs
      ensures OnlyFailures(rs, env, 0) && rs.options == options
    {
      rs.Clear();
      rs.options := options;
    }

    /** Keeps an item for upload, and uploads the values when there are enough. */
    method Keep(item: ViewItem, rs: ResultSet, env: Environment, first: nat) returns (flushed: nat)
      requires |values| < VIEWLOAD_BATCH_COUNT && first % VIEWLOAD_BATCH_COUNT == 0
      requires OnlyFailures(rs, env, first)
      modifies this`values, this`uploaded, rs
      ensures flushed + |values| == first + old(|values|) + 1
      ensures |values| < VIEWLOAD_BATCH_COUNT && flushed % VIEWLOAD_BATCH_COUNT == 0
      ensures uploaded + values == old(uploaded) + old(values) + [item]
      ensures OnlyFailures(rs, env, flushed)
    {
      hide OnlyFailures;
      flushed := first;
      values := values + [item];
      if |values| >= VIEWLOAD_BATCH_COUNT {
        FlushValues(rs, env, first);
        flushed := first + |values|;
        values := [];
      }
    }

    /** Uploads every item once, in order, and records the failures alone, so
        `remaining` ends at minus their number. */
    method PopulateViewData(ds: Dataset, rs: ResultSet, options: ResultOptions, env: Environment)
      requires values == [] && uploaded == []
      requires !ds.Continuous() && Routable(handle.options, ds)
      modifies this, rs, handle`doCancel
      ensures uploaded == ViewItems(ds, ds.Count())
      ensures OnlyFailures(rs, env, ds.Count())
      ensures |values| == ds.Count() % 1000 && !handle.doCancel
    {
      hide OnlyFailures, Routable, ViewItems, Dataset.KeyAt, Dataset.ValueAt, Dataset.IndexAfter;
      hide DatasetIterator.Valid;
      NothingLoaded(ds, env);
      ClearThenOptions(rs, options, env);
      handle.doCancel := false;
      var iter := new DatasetIterator(ds);
      iter.Start();
      var ii, flushed := 0, 0;
      while true
        invariant fresh(iter) && iter.data == ds && iter.Valid() && iter.steps == ii && ii <= ds.Count()
        invariant flushed + |values| == ii && |values| < VIEWLOAD_BATCH_COUNT && flushed % VIEWLOAD_BATCH_COUNT == 0
        invariant uploaded + values == ViewItems(ds, ii)
        invariant OnlyFailures(rs, env, flushed) && !handle.doCancel
        decreases ds.Count() - ii
      {
        IndexAfterClosedForm(ds, ii);
        var done := iter.Done();
        if done {
          break;
        }
        CurrentKey(iter);
        ViewItemsNext(ds, ii);
        flushed := Keep(ViewItem(iter.curk, ii), rs, env, flushed);
        ii := ii + 1;
        iter.Advance();
      }
      if values != [] {
        FlushValues(rs, env, flushed);
      }
    }
  }
}
