/** What the pieces say together: from a seeded dataset through the interleaved
    pipeline to the counters. */
module Composition {
  import opened Arith
  import opened Prelude
  import opened Datasets
  import opened Keys
  import opened Routing
  import opened SeededRouting
  import opened Timeline
  import opened Results
  import opened Pipeline
  import Interleaving

  /** The results recorded for these submissions, in this order. */
  function EventsOf(env: Environment, recorded: seq<nat>): seq<Event> {
    seq(|recorded|, k requires 0 <= k < |recorded| => EventOf(env.outcome(recorded[k]), env.clock(k)))
  }

  /** Every interleaving of an operation with cancel steps records what the
      operation records when it runs by itself with the same outcomes and clock and
      is cancelled at the same item. */
  lemma InterleavedRecords(ds: Dataset, c: Interleaving.Config, t: seq<Interleaving.State>, env: Environment)
    requires c.count == ds.Count() && c.continuous == ds.Continuous()
    requires Interleaving.Run(c, t) && Interleaving.Init(t[0]) && t[|t| - 1].pc == Interleaving.Finished
    ensures var s := t[|t| - 1];
            && EventsOf(env, s.recorded) == Recorded(env, s.submitted)
            && exists e: Environment :: e.outcome == env.outcome && e.clock == env.clock && StopsAt(ds, e, s.submitted)
  {
    Interleaving.ReturnsClean(c, t, |t| - 1);
    Interleaving.Reachable(c, t);
    var n := t[|t| - 1].submitted;
    assert Interleaving.Invariant(c, t[|t| - 1]);
    StoppedAt(ds, env, n);
  }

  lemma StoppedAt(ds: Dataset, env: Environment, n: nat)
    requires ds.Continuous() || n <= ds.Count()
    ensures exists e: Environment :: e.outcome == env.outcome && e.clock == env.clock && StopsAt(ds, e, n)
  {
    forall j: nat | j < n
      ensures !ds.DoneAfter(j)
    {
      IndexAfterClosedForm(ds, j);
    }
    assert StopsAt(ds, env.(cancelled := k => k >= n), n);
  }

  /** Conservation through every interleaving: the windows and the counters of
      what an operation has recorded add up to the items it submitted, which are
      all of a finite dataset if no cancel step came after the reset. */
  lemma InterleavedEndToEnd(c: Interleaving.Config, t: seq<Interleaving.State>, env: Environment, step: nat)
    requires step >= 1
    requires Interleaving.Run(c, t) && Interleaving.Init(t[0]) && t[|t| - 1].pc == Interleaving.Finished
    ensures var s := t[|t| - 1];
            var log := EventsOf(env, s.recorded);
            && SumCounts(Histogram(step, log)) == MapSum(Tally(log)) == s.submitted
            && (s.mark == None ==> !c.continuous && s.submitted == c.count)
  {
    Interleaving.ReturnsClean(c, t, |t| - 1);
    Conservation(step, EventsOf(env, t[|t| - 1].recorded), "success");
  }

  /** Two operations on the same dataset whose items end with the same error
      codes, neither cancelled after its reset, end with the same counters: for
      any two batch sizes, interleavings and clocks. */
  lemma SameStats(c: Interleaving.Config, d: Interleaving.Config,
                  t: seq<Interleaving.State>, u: seq<Interleaving.State>, a: Environment, b: Environment)
    requires c.count == d.count && c.continuous == d.continuous
    requires Interleaving.Run(c, t) && Interleaving.Init(t[0]) && t[|t| - 1].pc == Interleaving.Finished
    requires Interleaving.Run(d, u) && Interleaving.Init(u[0]) && u[|u| - 1].pc == Interleaving.Finished
    requires t[|t| - 1].mark == None && u[|u| - 1].mark == None
    requires forall k: nat :: k < c.count ==> a.outcome(k) == b.outcome(k)
    ensures Tally(EventsOf(a, t[|t| - 1].recorded)) == Tally(EventsOf(b, u[|u| - 1].recorded))
  {
    Interleaving.ReturnsClean(c, t, |t| - 1);
    Interleaving.ReturnsClean(d, u, |u| - 1);
    assert EventsOf(a, t[|t| - 1].recorded) == Recorded(a, c.count);
    assert EventsOf(b, u[|u| - 1].recorded) == Recorded(b, c.count);
    StatsFromOutcomes(a, b, c.count);
  }

  /** getCollection throws for no key of a seeded dataset whose keys carry their
      indices. */
  lemma SeededRoutable(opts: HandleOptions, spec: SeedSpec)
    requires opts.useCollections && Readable(spec) && opts.collections * opts.scopes > 0
    ensures Routable(opts, Seeded(spec))
  {
    hide GetCollection, Readable;
    forall idx: nat | idx < spec.count || (idx == 0 && spec.continuous)
      ensures GetCollection(opts, Seeded(spec).KeyAt(idx)).Some?
    {
      SeededRoute(opts, spec, idx, opts.collections * opts.scopes);
    }
  }

  /** The submissions of a finite seeded dataset: item k is routed to the
      collection k mod 1000 mod total, and no key is submitted twice. */
  lemma SeededSubmissions(opts: HandleOptions, spec: SeedSpec, n: nat, total: nat)
    requires opts.useCollections && total == opts.collections * opts.scopes > 0
    requires Readable(spec) && !ItemsCollide(spec) && !spec.continuous && n <= spec.count
    ensures opts.collections >= 1
    ensures var subs := Submissions(opts, Seeded(spec), n);
            && (forall k :: 0 <= k < n ==> subs[k].collection == Some(PairOf(opts.collections, k % 1000 % total)))
            && (forall i, j :: 0 <= i < j < n ==> subs[i].key != subs[j].key)
  {
    NonZeroFactor(opts.collections, opts.scopes);
    var d := Seeded(spec);
    hide Readable, ItemsCollide;
    forall k: nat | k < n
      ensures SubmissionAt(opts, d, k) == Submission(d.KeyAt(k), Some(PairOf(opts.collections, k % 1000 % total)))
    {
      SeededSubmission(opts, spec, k, total);
    }
    hide SubmissionAt;
    forall i: nat, j: nat | i < j < n
      ensures d.KeyAt(i) != d.KeyAt(j)
    {
      SeededKeysDiffer(spec, i, j);
    }
  }

  lemma SeededSubmission(opts: HandleOptions, spec: SeedSpec, k: uint32, total: nat)
    requires opts.useCollections && total == opts.collections * opts.scopes > 0
    requires Readable(spec) && !spec.continuous
    ensures opts.collections >= 1
    ensures SubmissionAt(opts, Seeded(spec), k) ==
            Submission(Seeded(spec).KeyAt(k), Some(PairOf(opts.collections, k % 1000 % total)))
  {
    hide GetCollection, Readable;
    IndexAfterClosedForm(Seeded(spec), k);
    SeededRoute(opts, spec, k, total);
  }

  lemma SeededKeysDiffer(spec: SeedSpec, i: uint32, j: uint32)
    requires i < spec.count && j < spec.count && i != j && !ItemsCollide(spec)
    ensures Seeded(spec).KeyAt(i) != Seeded(spec).KeyAt(j)
  {
    ItemKeysDistinctIff(spec);
    hide ItemsCollide, Filled;
  }

  /** A continuous dataset is submitted over and over in the same order. */
  lemma ContinuousCycles(opts: HandleOptions, d: Dataset, n: nat, k: nat)
    requires d.Continuous() && d.Count() > 0 && k < n
    ensures k % d.Count() <= k
    ensures Submissions(opts, d, n)[k] == Submissions(opts, d, n)[k % d.Count()]
  {
    hide GetCollection;
    IndexAfterClosedForm(d, k);
    ModLess(k, d.Count());
    IndexAfterClosedForm(d, k % d.Count());
    ModSmall(k % d.Count(), d.Count());
  }
}
