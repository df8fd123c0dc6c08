/** Workers that call generateCollections at the same time. The singleton's flag
    is loaded and stored in two steps, and any steps of other workers may come
    between them. */
module GenerationRace {
  import opened Prelude

  /** A worker is about to load the flag, has found it unset, has set it and
      creates the collections, or has been sent away. */
  datatype Phase = Calling | FoundUnset | Creating | Refused

  datatype State = State(generated: bool, workers: seq<Phase>)

  predicate Enabled(s: State, w: nat) {
    w < |s.workers| && s.workers[w] in {Calling, FoundUnset}
  }

  /** The next step of worker w. */
  function Apply(s: State, w: nat): State
    requires Enabled(s, w)
  {
    match s.workers[w]
    case Calling => s.(workers := s.workers[w := if s.generated then Refused else FoundUnset])
    case FoundUnset => State(true, s.workers[w := Creating])
    case _ => s
  }

  predicate Next(s: State, s': State) {
    exists w: nat :: w < |s.workers| && Enabled(s, w) && s' == Apply(s, w)
  }

  /** A run of n workers. */
  predicate Run(t: seq<State>, n: nat) {
    && t != [] && t[0] == State(false, seq(n, _ => Calling))
    && forall i :: 0 < i < |t| ==> Next(t[i - 1], t[i])
  }

  predicate Finished(s: State) {
    forall w :: 0 <= w < |s.workers| ==> s.workers[w] in {Creating, Refused}
  }

  function Creators(workers: seq<Phase>): nat {
    if workers == [] then 0 else Creators(Front(workers)) + if Last(workers) == Creating then 1 else 0
  }

  ghost predicate Invariant(s: State, n: nat) {
    && |s.workers| == n
    && (s.generated <==> Creating in s.workers)
    && (Refused in s.workers ==> s.generated)
  }

  lemma NextInvariant(s: State, s': State, n: nat)
    requires Invariant(s, n) && Next(s, s')
    ensures Invariant(s', n)
  {
    var w: nat :| w < |s.workers| && Enabled(s, w) && s' == Apply(s, w);
    assert s'.workers[w] != Calling;
    if s.generated {
      var v :| 0 <= v < |s.workers| && s.workers[v] == Creating;
      assert s'.workers[v] == Creating;
    }
    if Refused in s'.workers {
      var v :| 0 <= v < |s'.workers| && s'.workers[v] == Refused;
      assert v != w ==> s.workers[v] == Refused;
    }
  }

  lemma {:induction false} Reachable(t: seq<State>, n: nat)
    requires Run(t, n)
    ensures Invariant(Last(t), n)
  {
    if |t| > 1 {
      var front := Front(t);
      Reachable(front, n);
      NextInvariant(Last(front), Last(t), n);
    }
  }

  lemma {:induction false} CreatorsBounds(workers: seq<Phase>)
    ensures Creators(workers) <= |workers|
    ensures Creating in workers ==> Creators(workers) >= 1
    ensures (forall w :: 0 <= w < |workers| ==> workers[w] == Creating) ==> Creators(workers) == |workers|
  {
    if workers != [] {
      CreatorsBounds(Front(workers));
      assert workers == Front(workers) + [Last(workers)];
    }
  }

  /** When all calls are past the flag, at least one worker creates. */
  lemma SomeoneCreates(t: seq<State>, n: nat)
    requires Run(t, n) && n >= 1 && Finished(Last(t))
    ensures 1 <= Creators(Last(t).workers) <= n
  {
    Reachable(t, n);
    CreatorsBounds(Last(t).workers);
    var s := Last(t);
    assert s.workers[0] in s.workers;
  }

  /** Who may still create, and who not any more. */
  predicate Follows(before: Phase, after: Phase) {
    if before == FoundUnset then after in {FoundUnset, Creating} else after in {Calling, Refused}
  }

  lemma FollowsNext(s: State, s': State, before: Phase, w: nat)
    requires s.generated && Next(s, s') && w < |s.workers| && Follows(before, s.workers[w])
    ensures s'.generated && |s'.workers| == |s.workers| && Follows(before, s'.workers[w])
  {
  }

  /** Once the flag is stored, whoever has not loaded it is sent away. */
  lemma {:induction false} AfterTheStore(t: seq<State>, n: nat, i: nat, w: nat)
    requires Run(t, n) && i + 1 < |t| && !t[i].generated && t[i + 1].generated && w < n
    ensures |t[i].workers| == |Last(t).workers| == n
    ensures Last(t).generated && t[i].workers[w] in {Calling, FoundUnset}
    ensures Follows(t[i].workers[w], Last(t).workers[w])
  {
    if i + 2 == |t| {
      var front := Front(t);
      Reachable(front, n);
      assert Last(front) == t[i] && Last(t) == t[i + 1] && Next(t[i], t[i + 1]);
      var phase := t[i].workers[w];
      assert phase in t[i].workers && (phase.Calling? || phase.FoundUnset? || phase.Creating? || phase.Refused?);
    } else {
      var front := Front(t);
      AfterTheStore(front, n, i, w);
      assert Next(Last(front), Last(t));
      FollowsNext(Last(front), Last(t), t[i].workers[w], w);
    }
  }

  /** The creators are exactly the workers that loaded the flag before the first
      store of it. */
  lemma CreatesIff(t: seq<State>, n: nat, i: nat, w: nat)
    requires Run(t, n) && Finished(Last(t)) && i + 1 < |t| && !t[i].generated && t[i + 1].generated && w < n
    ensures |t[i].workers| == |Last(t).workers| == n
    ensures Last(t).workers[w] == Creating <==> t[i].workers[w] == FoundUnset
  {
    AfterTheStore(t, n, i, w);
  }

  /** The first k workers are in one phase, the others still in another. */
  function Partly(n: nat, k: nat, done: Phase, todo: Phase, generated: bool): State
    requires k <= n
  {
    State(generated, seq(n, w => if w < k then done else todo))
  }

  lemma Extend(t: seq<State>, n: nat, w: nat, s: State) returns (longer: seq<State>)
    requires Run(t, n) && Enabled(Last(t), w) && s == Apply(Last(t), w)
    ensures Run(longer, n) && Last(longer) == s
  {
    longer := t + [s];
    assert Next(Last(t), s);
    hide Next;
  }

  lemma {:induction false} AllFindUnset(n: nat, k: nat) returns (t: seq<State>)
    requires k <= n
    ensures Run(t, n) && Last(t) == Partly(n, k, FoundUnset, Calling, false)
  {
    if k == 0 {
      t := [Partly(n, 0, FoundUnset, Calling, false)];
      assert t[0].workers == seq(n, _ => Calling);
    } else {
      t := AllFindUnset(n, k - 1);
      var s := Partly(n, k, FoundUnset, Calling, false);
      assert s.workers == Last(t).workers[k - 1 := FoundUnset];
      t := Extend(t, n, k - 1, s);
    }
  }

  lemma {:induction false} AllCreate(n: nat, k: nat) returns (t: seq<State>)
    requires 1 <= k <= n
    ensures Run(t, n) && Last(t) == Partly(n, k, Creating, FoundUnset, true)
  {
    var s := Partly(n, k, Creating, FoundUnset, true);
    if k == 1 {
      t := AllFindUnset(n, n);
    } else {
      t := AllCreate(n, k - 1);
    }
    assert s.workers == Last(t).workers[k - 1 := Creating];
    t := Extend(t, n, k - 1, s);
  }

  /** Only a single caller is sure to be the only creator; of more, all can be. */
  lemma OneCreatorIff(n: nat)
    ensures (forall t :: Run(t, n) && Finished(Last(t)) ==> Creators(Last(t).workers) == 1) <==> n == 1
    ensures n >= 1 ==> exists t :: Run(t, n) && Finished(Last(t)) && Creators(Last(t).workers) == n
  {
    hide Finished, Creators;
    if n == 0 {
      NoWorkers();
    } else {
      var t := AllCreate(n, n);
      AllCreating(n);
      assert Run(t, n) && Finished(Last(t)) && Creators(Last(t).workers) == n;
      if n == 1 {
        forall u | Run(u, n) && Finished(Last(u))
          ensures Creators(Last(u).workers) == 1
        {
          SomeoneCreates(u, n);
        }
      }
    }
  }

  lemma NoWorkers()
    ensures exists t :: Run(t, 0) && Finished(Last(t)) && Creators(Last(t).workers) != 1
  {
    var t := [State(false, [])];
    assert Run(t, 0) && Finished(Last(t)) && Creators(Last(t).workers) == 0;
  }

  lemma AllCreating(n: nat)
    ensures var s := Partly(n, n, Creating, FoundUnset, true);
            Finished(s) && Creators(s.workers) == n
  {
    CreatorsBounds(Partly(n, n, Creating, FoundUnset, true).workers);
  }
}
