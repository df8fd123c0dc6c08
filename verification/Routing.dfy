/** Handle::getCollection: the scope and collection a key is sent to. */
module Routing {
  import opened Arith
  import opened Decimal
  import opened Prelude
  import opened CollectionPlan
  import Float32

  datatype HandleOptions = HandleOptions(useCollections: bool, scopes: uint32, collections: uint32)

  /** key.substr(max(0, (int)key.length() - 3)): the last three characters of the
      key, or all of it. A length of 2^31 or more turns negative, or is reduced
      modulo 2^32. */
  function LastThree(key: string): string {
    var from := ToInt32(|key|) - 3;
    if from <= 0 then key else key[from..]
  }

  /** The digits of s, read as a number. */
  function Number(s: string): nat {
    Value(KeepDigits(s))
  }

  /** std::stoi of the digits among them; it throws when there are none, and when
      they make up more than an int. */
  function KeyNumber(key: string): (r: Option<nat>)
    ensures r.Some? ==> r.value < 0x8000_0000
  {
    var last := LastThree(key);
    if KeepDigits(last) == "" || Number(last) >= 0x8000_0000 then None else Some(Number(last))
  }

  lemma {:induction false} KeepDigitsShort(s: string)
    ensures |KeepDigits(s)| <= |s|
  {
    if s != [] {
      KeepDigitsShort(s[..|s| - 1]);
    }
  }

  /** For a key whose length is an int, that number has three digits. */
  lemma ShortKeyNumber(key: string)
    requires |key| < 0x8000_0000
    ensures |LastThree(key)| <= 3 && Number(LastThree(key)) < 1000
  {
    KeepDigitsShort(LastThree(key));
    ValueBound(KeepDigits(LastThree(key)), 3);
    assert Pow10(3) == 1000;
  }

  /** The number of the collection of a key; None models the exception of
      std::stoi and the division by zero. */
  function CollectionNumber(opts: HandleOptions, key: string): (j: Option<nat>)
    ensures j.Some? ==> opts.collections >= 1 && opts.scopes >= 1
    ensures j.Some? ==> j.value < 0x8000_0000 && j.value < opts.collections * opts.scopes
  {
    var number, total := KeyNumber(key), opts.collections * opts.scopes;
    if number.None? || total == 0 then None
    else
      NonZeroFactor(opts.collections, opts.scopes);
      ModLess(number.value, total);
      Some(number.value % total)
  }

  /** The pair of scope and collection. The scope is the floor of a quotient of
      two floats. */
  function GetCollection(opts: HandleOptions, key: string): Option<(string, string)> {
    if !opts.useCollections || key == "" then Some(("_default", "_default"))
    else
      var j := CollectionNumber(opts, key);
      if j.None? then None
      else Some((Print(Float32.FloorQuotient(j.value, opts.collections)), Print(j.value)))
  }

  /** Keys go to the default collection exactly without collections or if they are
      empty; otherwise scope and collection are numerals. */
  lemma DefaultIff(opts: HandleOptions, key: string)
    ensures GetCollection(opts, key) == Some(("_default", "_default")) <==> !opts.useCollections || key == ""
    ensures opts.useCollections && key != "" && GetCollection(opts, key).Some? ==>
              var (s, n) := GetCollection(opts, key).value;
              AllDigits(s) && AllDigits(n) && s != "" && n != ""
  {
    hide CollectionNumber, Float32.FloorQuotient;
    assert "_default"[0] == '_';
  }

  /** The pair of collection j and the scope it belongs to. */
  function PairOf(collections: nat, j: nat): (string, string)
    requires collections >= 1
  {
    (Print(j / collections), Print(j))
  }

  /** For every key whose length is an int, the float division finds the scope of
      the collection. */
  lemma RouteExact(opts: HandleOptions, key: string)
    requires |key| < 0x8000_0000 && opts.useCollections && key != ""
    ensures var j := CollectionNumber(opts, key);
            GetCollection(opts, key) == if j.None? then None else Some(PairOf(opts.collections, j.value))
  {
    hide LastThree;
    ShortKeyNumber(key);
    var j := CollectionNumber(opts, key);
    if j.Some? {
      ModLess(KeyNumber(key).value, opts.collections * opts.scopes);
      Float32.FloorQuotientExact(j.value, opts.collections);
    }
  }

  lemma ModLess(a: nat, m: nat)
    requires m > 0
    ensures a % m <= a && a % m < m
  {
  }

  lemma NonZeroFactor(a: nat, b: nat)
    requires a * b != 0
    ensures a >= 1 && b >= 1
  {
  }

  /* ---- routing agrees with creation ---- */

  /** What generateCollections creates for these options when no request fails;
      the unsigned options are passed to int parameters. */
  function CreatedFor(opts: HandleOptions): seq<Creation> {
    Plan(ToInt32(opts.scopes), ToInt32(opts.collections))
  }

  /** Routing fails exactly without a digit in what is kept of the key, with more
      digits than an int has, or without collections; of a key whose length is an
      int at most the last three characters are kept. */
  lemma RoutingFails(opts: HandleOptions, key: string)
    requires opts.useCollections && key != ""
    ensures GetCollection(opts, key).None? <==>
            || AllNonDigits(LastThree(key)) || Number(LastThree(key)) >= 0x8000_0000
            || opts.scopes == 0 || opts.collections == 0
    ensures |key| < 0x8000_0000 ==>
              LastThree(key) == Ending(key, 3) && Number(LastThree(key)) < 1000
  {
    KeepDigitsEmpty(LastThree(key));
    if opts.collections > 0 && opts.scopes > 0 {
      MulLe(1, opts.collections, opts.scopes);
    }
    if |key| < 0x8000_0000 {
      ShortKeyNumber(key);
    }
  }

  /** The last n characters of s, or all. */
  function Ending(s: string, n: nat): string {
    if |s| <= n then s else s[|s| - n..]
  }

  predicate AllNonDigits(s: string) {
    forall k :: 0 <= k < |s| ==> !IsDigit(s[k])
  }

  lemma {:induction false} KeepDigitsEmpty(s: string)
    ensures KeepDigits(s) == "" <==> AllNonDigits(s)
  {
    if s != [] {
      KeepDigitsEmpty(s[..|s| - 1]);
      assert s == s[..|s| - 1] + [s[|s| - 1]];
    }
  }

  /** The key is routed to a collection that generateCollections creates. */
  predicate RoutedToCreated(opts: HandleOptions, key: string)
    requires GetCollection(opts, key).Some?
  {
    var (s, n) := GetCollection(opts, key).value;
    CreateCollection(s, n) in CreatedFor(opts)
  }

  lemma CreatedIfExact(opts: HandleOptions, key: string)
    requires opts.useCollections && key != "" && GetCollection(opts, key).Some?
    ensures var j := CollectionNumber(opts, key).value;
            RoutedToCreated(opts, key)
            <==> && opts.scopes < 0x8000_0000 && opts.collections < 0x8000_0000
                 && Float32.FloorQuotient(j, opts.collections) == j / opts.collections
  {
    var j, c := CollectionNumber(opts, key).value, opts.collections;
    hide CollectionNumber, Float32.FloorQuotient, ToInt32, Plan;
    PlanNumbers(ToInt32(opts.scopes), ToInt32(c), Float32.FloorQuotient(j, c), j);
    ScopeInRange(j, c, opts.scopes);
  }

  /** Every key whose length is an int and that routes at all routes to a created
      collection, exactly when both options survive the conversion to int. */
  lemma RoutingAgreesWithCreation(opts: HandleOptions, key: string)
    requires opts.useCollections && key != "" && |key| < 0x8000_0000 && GetCollection(opts, key).Some?
    ensures RoutedToCreated(opts, key) <==> opts.scopes < 0x8000_0000 && opts.collections < 0x8000_0000
  {
    CreatedIfExact(opts, key);
    ShortKeyNumber(key);
    var j := CollectionNumber(opts, key).value;
    ModLess(KeyNumber(key).value, opts.collections * opts.scopes);
    Float32.FloorQuotientExact(j, opts.collections);
  }

  /* ---- routing of keys of any length ---- */

  /** A key whose length turns negative and that ends in the numeral of n. */
  lemma EveryNumberRead(n: nat) returns (key: string)
    requires n < 0x8000_0000
    ensures key != "" && KeyNumber(key) == Some(n)
  {
    var letters := seq(0x8000_0003, _ => 'x');
    key := letters + Print(n);
    PrintLength(n, 10);
    Billion();
    assert LastThree(key) == key;
    KeepDigitsEmpty(letters);
    KeepDigitsConcat(letters, Print(n));
    KeepDigitsAll(Print(n));
    ValueOfPrint(n);
    hide KeepDigits, Value, Print, LastThree;
    assert "" + Print(n) == Print(n);
  }

  /** Every key that routes, of whatever length, routes to a created collection. */
  ghost predicate EveryKeyCreated(opts: HandleOptions) {
    forall key: string ::
      opts.useCollections && key != "" && GetCollection(opts, key).Some? ==> RoutedToCreated(opts, key)
  }

  /** The float division finds the scope of each collection number a key can have. */
  ghost predicate ScopesExact(opts: HandleOptions) {
    forall j: nat :: j < opts.collections * opts.scopes && j < 0x8000_0000 && opts.collections >= 1 ==>
      Float32.FloorQuotient(j, opts.collections) == j / opts.collections
  }

  /** That is so exactly if both options survive the conversion to int and the
      float division finds all scopes. */
  lemma EveryKeyCreatedIff(opts: HandleOptions)
    requires opts.useCollections && opts.collections * opts.scopes > 0
    ensures EveryKeyCreated(opts) <==>
            opts.scopes < 0x8000_0000 && opts.collections < 0x8000_0000 && ScopesExact(opts)
  {
    NonZeroFactor(opts.collections, opts.scopes);
    if opts.scopes < 0x8000_0000 && opts.collections < 0x8000_0000 && ScopesExact(opts) {
      hide GetCollection, RoutedToCreated, Float32.FloorQuotient;
      forall key: string | key != "" && GetCollection(opts, key).Some?
        ensures RoutedToCreated(opts, key)
      {
        NumberOfRouted(opts, key);
        CreatedIfExact(opts, key);
      }
    } else {
      var j: nat := 0;
      if !ScopesExact(opts) {
        j :| j < opts.collections * opts.scopes && j < 0x8000_0000
             && Float32.FloorQuotient(j, opts.collections) != j / opts.collections;
      }
      var key := KeyOfCollection(opts, j);
      CreatedIfExact(opts, key);
    }
  }

  lemma NumberOfRouted(opts: HandleOptions, key: string)
    requires opts.useCollections && key != "" && GetCollection(opts, key).Some?
    ensures CollectionNumber(opts, key).Some?
  {
    hide CollectionNumber;
  }

  /** Some key is routed by this collection number. */
  lemma KeyOfCollection(opts: HandleOptions, j: nat) returns (key: string)
    requires opts.useCollections && j < opts.collections * opts.scopes && j < 0x8000_0000
    ensures key != "" && CollectionNumber(opts, key) == Some(j) && GetCollection(opts, key).Some?
  {
    key := EveryNumberRead(j);
    ModSmall(j, opts.collections * opts.scopes);
    hide KeyNumber;
  }

  /** For up to 2^24 + 1 collections there is one exception: all of them in one
      scope, whose last number 2^24 is divided by 2^24 + 1. */
  lemma RoutedIsCreated(opts: HandleOptions)
    requires opts.useCollections && 0 < opts.collections * opts.scopes <= 0x100_0001
    ensures EveryKeyCreated(opts) <==> opts.collections != 0x100_0001
  {
    var c := opts.collections;
    NonZeroFactor(c, opts.scopes);
    MulLe(1, opts.scopes, c);
    MulLe(1, c, opts.scopes);
    assert opts.scopes * c == c * opts.scopes;
    EveryKeyCreatedIff(opts);
    hide EveryKeyCreated, Float32.FloorQuotient;
    if c == 0x100_0001 {
      Float32.FloorQuotientExactIff(0x100_0000, c);
      assert 0x100_0000 < c * opts.scopes;
      assert !ScopesExact(opts);
    } else {
      forall j: nat | j < c * opts.scopes
        ensures Float32.FloorQuotient(j, c) == j / c
      {
        Float32.FloorQuotientExactIff(j, c);
      }
    }
  }

  /** All keys are routed to created collections, whatever the split into scopes,
      exactly up to 2^24 collections. */
  lemma RoutingLimit(m: nat)
    ensures (forall opts: HandleOptions ::
               opts.useCollections && 0 < opts.collections * opts.scopes <= m ==> EveryKeyCreated(opts))
            <==> m <= 0x100_0000
  {
    hide EveryKeyCreated;
    if m <= 0x100_0000 {
      forall opts: HandleOptions | opts.useCollections && 0 < opts.collections * opts.scopes <= m
        ensures EveryKeyCreated(opts)
      {
        AtMostProduct(opts.collections, opts.scopes);
        RoutedIsCreated(opts);
      }
    } else {
      RoutedIsCreated(HandleOptions(true, 1, 0x100_0001));
    }
  }

  lemma AtMostProduct(a: nat, b: nat)
    requires a * b > 0
    ensures a <= a * b
  {
    NonZeroFactor(a, b);
    MulLe(1, b, a);
    assert b * a == a * b;
  }

  /** The key that goes wrong: its number is 2^24, and the scope found for it is 1
      instead of 0, which is the only one. */
  lemma MisroutedKey() returns (key: string)
    ensures var opts := HandleOptions(true, 1, 0x100_0001);
            GetCollection(opts, key) == Some((Print(1), Print(0x100_0000))) && !RoutedToCreated(opts, key)
  {
    var opts := HandleOptions(true, 1, 0x100_0001);
    key := KeyOfCollection(opts, 0x100_0000);
    Float32.TieQuotient(0x100_0000, 0x100_0001);
    CreatedIfExact(opts, key);
    hide CollectionNumber, Float32.FloorQuotient, RoutedToCreated;
  }

  lemma ScopeInRange(j: nat, c: nat, scopes: nat)
    requires c >= 1 && j < c * scopes
    ensures j / c < scopes
  {
    assert j == j / c * c + j % c;
    if j / c >= scopes {
      MulLe(scopes, j / c, c);
    }
  }
}
