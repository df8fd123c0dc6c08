/** Which scopes and collections generateCollections creates. */
module CollectionPlan {
  import opened Arith
  import opened Decimal

  datatype Creation = CreateScope(scope: string) | CreateCollection(scope: string, collection: string)

  function PlanCollections(scope: nat, from: nat, to: nat): seq<Creation>
    decreases if from < to then to - from else 0
  {
    if from >= to then []
    else [CreateCollection(Print(scope), Print(from))] + PlanCollections(scope, from + 1, to)
  }

  function PlanScope(i: nat, collections: int): seq<Creation> {
    var from := if collections <= 0 then 0 else i * collections;
    var to := if collections <= 0 then 0 else i * collections + collections;
    [CreateScope(Print(i))] + PlanCollections(i, from, to)
  }

  function PlanFrom(from: nat, scopes: int, collections: int): seq<Creation>
    decreases scopes - from
  {
    if from >= scopes then []
    else PlanScope(from, collections) + PlanFrom(from + 1, scopes, collections)
  }

  /** Every creation request of a complete generation, in order. */
  function Plan(scopes: int, collections: int): seq<Creation> {
    PlanFrom(0, scopes, collections)
  }

  lemma {:induction false} PlanCollectionsHas(scope: nat, from: nat, to: nat, j: nat)
    requires from <= j < to
    ensures CreateCollection(Print(scope), Print(j)) in PlanCollections(scope, from, to)
    decreases if from < to then to - from else 0
  {
    if from < j {
      PlanCollectionsHas(scope, from + 1, to, j);
    }
  }

  lemma {:induction false} PlanCollectionsOnly(scope: nat, from: nat, to: nat, c: Creation) returns (j: nat)
    requires c in PlanCollections(scope, from, to)
    ensures from <= j < to && c == CreateCollection(Print(scope), Print(j))
    decreases if from < to then to - from else 0
  {
    j := from;
    if c != CreateCollection(Print(scope), Print(from)) {
      j := PlanCollectionsOnly(scope, from + 1, to, c);
    }
  }

  lemma {:induction false} PlanFromHas(from: nat, scopes: int, collections: int, i: nat, c: Creation)
    requires from <= i < scopes && c in PlanScope(i, collections)
    ensures c in PlanFrom(from, scopes, collections)
    decreases scopes - from
  {
    NextScope(from, scopes, collections);
    hide PlanScope, PlanFrom;
    if from < i {
      PlanFromHas(from + 1, scopes, collections, i, c);
    }
  }

  lemma {:induction false} PlanFromOnly(from: nat, scopes: int, collections: int, c: Creation) returns (i: nat)
    requires c in PlanFrom(from, scopes, collections)
    ensures from <= i < scopes && c in PlanScope(i, collections)
    decreases scopes - from
  {
    if from < scopes {
      NextScope(from, scopes, collections);
    } else {
      NoScopesLeft(from, scopes, collections);
    }
    hide PlanScope, PlanFrom;
    i := from;
    if c !in PlanScope(from, collections) {
      i := PlanFromOnly(from + 1, scopes, collections, c);
    }
  }

  /** Collection j belongs to scope i. */
  predicate InScope(i: nat, collections: int, j: nat) {
    collections > 0 && j / collections == i
  }

  lemma InScopeRange(i: nat, collections: int, j: nat)
    requires collections > 0
    ensures InScope(i, collections, j) <==> i * collections <= j < i * collections + collections
  {
    if i * collections <= j < i * collections + collections {
      DivModUnique(j, collections, i, j - i * collections);
    } else {
      assert j == j / collections * collections + j % collections;
    }
  }

  lemma PlanScopeHas(i: nat, collections: int, j: nat)
    requires InScope(i, collections, j)
    ensures CreateCollection(Print(i), Print(j)) in PlanScope(i, collections)
  {
    hide PlanCollections;
    InScopeRange(i, collections, j);
    var from, to := ScopeBounds(i, collections);
    PlanCollectionsHas(i, from, to, j);
  }

  lemma PlanScopeOnly(i: nat, collections: int, c: Creation) returns (j: nat)
    requires c.CreateCollection? && c in PlanScope(i, collections)
    ensures InScope(i, collections, j) && c == CreateCollection(Print(i), Print(j))
  {
    hide InScope;
    var from, to := ScopeBounds(i, collections);
    j := PlanCollectionsOnly(i, from, to, c);
    InScopeRange(i, collections, j);
  }

  lemma ScopeBounds(i: nat, collections: int) returns (from: nat, to: nat)
    ensures PlanScope(i, collections) == [CreateScope(Print(i))] + PlanCollections(i, from, to)
    ensures Bounds(i, collections, from, to)
  {
    from := if collections <= 0 then 0 else i * collections;
    to := if collections <= 0 then 0 else i * collections + collections;
  }

  /** Scope i gets exactly the collections numbered i*C up to (i+1)*C - 1. */
  lemma PlanMember(scopes: int, collections: int, s: string, n: string)
    ensures CreateCollection(s, n) in Plan(scopes, collections)
            <==> (exists i: nat, j: nat :: i < scopes && InScope(i, collections, j) && s == Print(i) && n == Print(j))
  {
    hide PlanFrom, PlanScope, InScope, Print;
    if CreateCollection(s, n) in Plan(scopes, collections) {
      var i := PlanFromOnly(0, scopes, collections, CreateCollection(s, n));
      var j := PlanScopeOnly(i, collections, CreateCollection(s, n));
    }
    if i: nat, j: nat :| i < scopes && InScope(i, collections, j) && s == Print(i) && n == Print(j) {
      PlanScopeHas(i, collections, j);
      PlanFromHas(0, scopes, collections, i, CreateCollection(s, n));
    }
  }

  lemma PlanNumbers(scopes: int, collections: int, i: nat, j: nat)
    ensures CreateCollection(Print(i), Print(j)) in Plan(scopes, collections)
            <==> i < scopes && InScope(i, collections, j)
  {
    hide Plan, InScope;
    PlanMember(scopes, collections, Print(i), Print(j));
    forall k: nat, l: nat | Print(i) == Print(k) && Print(j) == Print(l)
      ensures i == k && j == l
    {
      PrintInjective(i, k);
      PrintInjective(j, l);
    }
  }

  predicate NoneFails(fails: nat -> bool, base: nat, count: nat) {
    forall n: nat :: base <= n < base + count ==> !fails(n)
  }

  /** How many of the requests are made before the loop stops: all of them, or
      up to and including the first that fails. */
  function Attempts(plan: seq<Creation>, fails: nat -> bool, base: nat): (t: nat)
    ensures t <= |plan|
  {
    if plan == [] then 0
    else if fails(base) then 1
    else 1 + Attempts(plan[1..], fails, base + 1)
  }

  /** The requests made. */
  function Made(plan: seq<Creation>, fails: nat -> bool, base: nat): seq<Creation> {
    plan[..Attempts(plan, fails, base)]
  }

  lemma {:induction false} AttemptsSplit(front: seq<Creation>, rest: seq<Creation>, fails: nat -> bool, base: nat)
    requires NoneFails(fails, base, |front|)
    ensures Attempts(front + rest, fails, base) == |front| + Attempts(rest, fails, base + |front|)
  {
    if front == [] {
      assert front + rest == rest;
    } else {
      assert (front + rest)[1..] == front[1..] + rest;
      AttemptsSplit(front[1..], rest, fails, base + 1);
    }
  }

  /** The singleton of Collections.h. `requested` is what the server was asked
      to create so far; the n-th request fails exactly if fails(n). */
  class Collections {
    var collectionsGenerated: bool
    var requested: seq<Creation>
    const fails: nat -> bool

    constructor (fails: nat -> bool)
      ensures !collectionsGenerated && requested == [] && this.fails == fails
    {
      collectionsGenerated := false;
      requested := [];
      this.fails := fails;
    }

    method Create(c: Creation) returns (failed: bool)
      modifies this`requested
      ensures requested == old(requested) + [c] && failed == fails(|old(requested)|)
    {
      failed := fails(|requested|);
      requested := requested + [c];
    }

    /** One turn of the outer loop: the scope and its collections. */
    method GenerateScope(i: nat, collections: int) returns (ok: bool)
      modifies this`requested
      ensures var plan, base := PlanScope(i, collections), |old(requested)|;
              && requested == old(requested) + Made(plan, fails, base)
              && (ok <==> NoneFails(fails, base, |plan|))
    {
      hide PlanScope, PlanCollections, Made, NoneFails, Print;
      ghost var plan, base := PlanScope(i, collections), |requested|;
      ghost var from, to := ScopeBounds(i, collections);
      PlanScopeSize(i, collections, from, to);
      PlanScopeNext(i, collections, from, to, 0);
      NoneFailsYet(fails, base);
      var failed := Create(CreateScope(Print(i)));
      if failed {
        StopsHere(plan, 0, fails, base);
        return false;
      }
      NoneFailsNext(fails, base, 0);
      var start := i * collections;
      var j := start;
      while j < start + collections
        invariant j == start || start <= j <= start + collections
        invariant 1 + (j - start) <= |plan| && requested == old(requested) + plan[..1 + (j - start)]
        invariant NoneFails(fails, base, 1 + (j - start))
        decreases start + collections - j
      {
        PlanScopeNext(i, collections, from, to, 1 + (j - start));
        failed := Create(CreateCollection(Print(i), Print(j)));
        if failed {
          StopsHere(plan, 1 + (j - start), fails, base);
          return false;
        }
        NoneFailsNext(fails, base, 1 + (j - start));
        j := j + 1;
      }
      AttemptsAll(plan, fails, base);
      return true;
    }

    method GenerateScopes(scopes: int, collections: int) returns (ok: bool)
      modifies this`requested
      ensures var plan, base := Plan(scopes, collections), |old(requested)|;
              && requested == old(requested) + Made(plan, fails, base)
              && (ok <==> NoneFails(fails, base, |plan|))
    {
      hide PlanScope, PlanFrom, Made, NoneFails;
      ghost var plan, base, made := Plan(scopes, collections), |requested|, [];
      NoneFailsYet(fails, base);
      var i := 0;
      while i < scopes
        invariant i >= 0
        invariant plan == made + PlanFrom(i, scopes, collections)
        invariant requested == old(requested) + made
        invariant NoneFails(fails, base, |made|)
      {
        ghost var scope, rest := PlanScope(i, collections), PlanFrom(i + 1, scopes, collections);
        NextScope(i, scopes, collections);
        TurnEnds(old(requested), made, scope, rest, fails);
        var created := GenerateScope(i, collections);
        if !created {
          return false;
        }
        made := made + scope;
        i := i + 1;
      }
      NoScopesLeft(i, scopes, collections);
      AttemptsAll(plan, fails, base);
      return true;
    }

    method GenerateCollections(scopes: int, collections: int) returns (ok: bool)
      modifies this
      ensures collectionsGenerated
      ensures old(collectionsGenerated) ==> !ok && requested == old(requested)
      ensures !old(collectionsGenerated) ==>
                var plan, base := Plan(scopes, collections), |old(requested)|;
                && requested == old(requested) + Made(plan, fails, base)
                && (ok <==> NoneFails(fails, base, |plan|))
    {
      if collectionsGenerated {
        return false;
      }
      collectionsGenerated := true;
      ok := GenerateScopes(scopes, collections);
    }
  }

  lemma NoneFailsYet(fails: nat -> bool, base: nat)
    ensures NoneFails(fails, base, 0)
  {
  }

  lemma NoneFailsNext(fails: nat -> bool, base: nat, count: nat)
    requires NoneFails(fails, base, count) && !fails(base + count)
    ensures NoneFails(fails, base, count + 1)
  {
  }

  lemma {:induction false} PlanCollectionsAt(scope: nat, from: nat, to: nat)
    ensures var plan := PlanCollections(scope, from, to);
            && |plan| == (if from < to then to - from else 0)
            && forall x :: 0 <= x < |plan| ==> plan[x] == CreateCollection(Print(scope), Print(from + x))
    decreases if from < to then to - from else 0
  {
    if from < to {
      PlanCollectionsAt(scope, from + 1, to);
    }
  }

  /** Where a scope's requests begin and end. */
  predicate Bounds(i: nat, collections: int, from: nat, to: nat) {
    if collections <= 0 then from == to == 0 else from == i * collections && to == from + collections
  }

  lemma PlanScopeSize(i: nat, collections: int, from: nat, to: nat)
    requires PlanScope(i, collections) == [CreateScope(Print(i))] + PlanCollections(i, from, to)
    requires Bounds(i, collections, from, to)
    ensures |PlanScope(i, collections)| == 1 + (if collections > 0 then collections else 0)
    ensures PlanScope(i, collections)[..0] == []
  {
    PlanCollectionsAt(i, from, to);
  }

  /** Request x of a scope follows those before it. */
  lemma PlanScopeNext(i: nat, collections: int, from: nat, to: nat, x: nat)
    requires PlanScope(i, collections) == [CreateScope(Print(i))] + PlanCollections(i, from, to)
    requires x < |PlanScope(i, collections)|
    ensures var plan := PlanScope(i, collections);
            plan[..x + 1] == plan[..x] + [if x == 0 then CreateScope(Print(i)) else CreateCollection(Print(i), Print(from + (x - 1)))]
  {
    hide PlanScope, PlanCollections, Print;
    PlanCollectionsAt(i, from, to);
    var plan := PlanScope(i, collections);
    assert plan[..x + 1] == plan[..x] + [plan[x]];
  }

  lemma NextScope(i: nat, scopes: int, collections: int)
    requires i < scopes
    ensures PlanFrom(i, scopes, collections) == PlanScope(i, collections) + PlanFrom(i + 1, scopes, collections)
  {
  }

  lemma NoScopesLeft(i: nat, scopes: int, collections: int)
    requires i >= scopes
    ensures PlanFrom(i, scopes, collections) == []
  {
  }

  /** How many collections each scope gets. */
  function PerScope(collections: int): nat {
    if collections <= 0 then 0 else collections
  }

  lemma PlanScopeAt(i: nat, collections: int, x: nat)
    requires x <= PerScope(collections)
    ensures |PlanScope(i, collections)| == PerScope(collections) + 1
    ensures PlanScope(i, collections)[x] ==
            if x == 0 then CreateScope(Print(i)) else CreateCollection(Print(i), Print(i * collections + x - 1))
  {
    var from, to := ScopeBounds(i, collections);
    hide PlanScope, PlanCollections, Print;
    PlanCollectionsAt(i, from, to);
    assert x > 0 ==> from + (x - 1) == i * collections + x - 1;
  }

  /** How many requests come before those of scope i. */
  function Before(collections: int, i: nat): nat {
    i * (PerScope(collections) + 1)
  }

  lemma BeforeNext(collections: int, i: nat)
    ensures Before(collections, 0) == 0
    ensures Before(collections, i + 1) == Before(collections, i) + (PerScope(collections) + 1)
  {
    var size := PerScope(collections) + 1;
    assert (i + 1) * size == i * size + size;
  }

  lemma {:induction false} PlanFromSize(from: nat, scopes: int, collections: int)
    requires from <= scopes
    ensures |PlanFrom(from, scopes, collections)| == Before(collections, scopes - from)
    decreases scopes - from
  {
    hide Before, PerScope, PlanScope;
    BeforeNext(collections, 0);
    if from < scopes {
      PlanFromSize(from + 1, scopes, collections);
      PlanScopeAt(from, collections, 0);
      BeforeNext(collections, scopes - (from + 1));
    }
  }

  /** The plan from scope i on. */
  lemma {:induction false} PlanRest(scopes: int, collections: int, i: nat)
    requires i <= scopes
    ensures Before(collections, i) <= |Plan(scopes, collections)|
    ensures Plan(scopes, collections)[Before(collections, i)..] == PlanFrom(i, scopes, collections)
  {
    hide Before, PlanScope, PlanFrom, PerScope;
    if i == 0 {
      BeforeNext(collections, 0);
    } else {
      PlanRest(scopes, collections, i - 1);
      NextScope(i - 1, scopes, collections);
      PlanScopeAt(i - 1, collections, 0);
      BeforeNext(collections, i - 1);
      hide Plan;
      DropTwice(Plan(scopes, collections), Before(collections, i - 1), PlanScope(i - 1, collections),
                PlanFrom(i, scopes, collections));
    }
  }

  lemma DropTwice(plan: seq<Creation>, from: nat, scope: seq<Creation>, rest: seq<Creation>)
    requires from <= |plan| && plan[from..] == scope + rest
    ensures from + |scope| <= |plan| && plan[from + |scope|..] == rest
  {
    assert |plan[from..]| == |plan| - from;
    assert plan[from + |scope|..] == plan[from..][|scope|..];
  }

  /** The order of the requests: scope after scope, and after each its collections,
      numbered on from scope to scope. */
  lemma PlanOrder(scopes: nat, collections: nat, i: nat, x: nat)
    requires i < scopes && x <= collections
    ensures |Plan(scopes, collections)| == scopes * (collections + 1)
    ensures var k := i * (collections + 1) + x;
            && k < |Plan(scopes, collections)|
            && Plan(scopes, collections)[k] ==
                 if x == 0 then CreateScope(Print(i)) else CreateCollection(Print(i), Print(i * collections + x - 1))
  {
    hide Plan, PlanScope, PlanFrom, Print;
    PlanFromSize(0, scopes, collections);
    WholePlan(scopes, collections);
    PlanRest(scopes, collections, i);
    NextScope(i, scopes, collections);
    PlanScopeAt(i, collections, x);
    PlanScopeAt(i, collections, 0);
    var from := i * (collections + 1);
    assert Plan(scopes, collections)[from..][x] == PlanScope(i, collections)[x];
  }

  lemma WholePlan(scopes: int, collections: int)
    ensures Plan(scopes, collections) == PlanFrom(0, scopes, collections)
  {
  }

  /** What one more scope does to the requests made so far. */
  lemma TurnEnds(before: seq<Creation>, made: seq<Creation>, scope: seq<Creation>, rest: seq<Creation>,
                 fails: nat -> bool)
    requires NoneFails(fails, |before|, |made|)
    ensures var base, plan, turn := |before|, made + (scope + rest), Made(scope, fails, |before + made|);
            && plan == (made + scope) + rest
            && (NoneFails(fails, |before + made|, |scope|) ==>
                  NoneFails(fails, base, |made + scope|) && (before + made) + turn == before + (made + scope))
            && (!NoneFails(fails, |before + made|, |scope|) ==>
                  !NoneFails(fails, base, |plan|) && (before + made) + turn == before + Made(plan, fails, base))
  {
    var base := |before|;
    if NoneFails(fails, base + |made|, |scope|) {
      AttemptsAll(scope, fails, base + |made|);
    } else {
      StopsInside(made + (scope + rest), made, scope, rest, fails, base);
    }
  }

  lemma AttemptsAll(plan: seq<Creation>, fails: nat -> bool, base: nat)
    requires NoneFails(fails, base, |plan|)
    ensures Made(plan, fails, base) == plan
  {
    AttemptsSplit(plan, [], fails, base);
    assert plan + [] == plan;
  }

  lemma StopsInside(plan: seq<Creation>, made: seq<Creation>, scope: seq<Creation>, rest: seq<Creation>,
                    fails: nat -> bool, base: nat)
    requires plan == made + (scope + rest) && NoneFails(fails, base, |made|)
    requires !NoneFails(fails, base + |made|, |scope|)
    ensures Made(plan, fails, base) == made + Made(scope, fails, base + |made|)
    ensures !NoneFails(fails, base, |plan|)
  {
    AttemptsSplit(made, scope + rest, fails, base);
    AttemptsStop(scope, rest, fails, base + |made|);
  }

  /** A failure in the front part hides the rest. */
  lemma {:induction false} AttemptsStop(front: seq<Creation>, rest: seq<Creation>, fails: nat -> bool, base: nat)
    requires !NoneFails(fails, base, |front|)
    ensures Attempts(front + rest, fails, base) == Attempts(front, fails, base)
  {
    if front == [] {
      assert false;
    } else {
      assert (front + rest)[1..] == front[1..] + rest;
      if !fails(base) {
        AttemptsStop(front[1..], rest, fails, base + 1);
      }
    }
  }

  /** The first failure is that of request k. */
  lemma StopsHere(plan: seq<Creation>, k: nat, fails: nat -> bool, base: nat)
    requires k < |plan| && NoneFails(fails, base, k) && fails(base + k)
    ensures Made(plan, fails, base) == plan[..k + 1] && !NoneFails(fails, base, |plan|)
  {
    assert plan == plan[..k] + plan[k..];
    AttemptsSplit(plan[..k], plan[k..], fails, base);
  }
}
