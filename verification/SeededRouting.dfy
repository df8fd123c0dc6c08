/** Which number the key of a seeded item carries, and where it is routed. */
module SeededRouting {
  import opened Arith
  import opened Decimal
  import opened Prelude
  import opened Datasets
  import opened Keys
  import opened CollectionPlan
  import opened Routing

  /* ---- the number after some text ---- */

  /** Adds nothing to the number of a key. */
  predicate Blank(c: char) {
    !IsDigit(c) || c == '0'
  }

  /** The last two characters are blank, as far as there are two. */
  predicate BlankTail(s: string) {
    forall k :: 0 <= k < |s| && k >= |s| - 2 ==> Blank(s[k])
  }

  lemma {:induction false} BlankNumber(t: string)
    ensures Number(t) == 0 <==> forall k :: 0 <= k < |t| ==> Blank(t[k])
  {
    if t != [] {
      var front, c := t[..|t| - 1], t[|t| - 1];
      BlankNumber(front);
      NumberLast(front, c);
      assert t == front + [c];
    }
  }

  lemma NumberLast(front: string, c: char)
    ensures Number(front + [c]) == if IsDigit(c) then 10 * Number(front) + DigitValue(c) else Number(front)
  {
    var t := front + [c];
    assert t[..|t| - 1] == front;
    if IsDigit(c) {
      var d := KeepDigits(front) + [c];
      assert d[..|d| - 1] == KeepDigits(front);
    } else {
      assert KeepDigits(front) + [] == KeepDigits(front);
    }
  }

  /** A numeral after some text shifts the number of the text and adds its own. */
  lemma NumberConcat(front: string, p: string)
    requires AllDigits(p)
    ensures Number(front + p) == Number(front) * Pow10(|p|) + Value(p)
    ensures p != "" ==> KeepDigits(front + p) != ""
  {
    KeepDigitsConcat(front, p);
    KeepDigitsAll(p);
    hide Value, KeepDigits;
    ValueConcat(KeepDigits(front), p);
  }

  lemma LastThreeAfter(front: string, p: string)
    requires 1 <= |p| <= 3 && |front + p| < 0x8000_0000
    ensures LastThree(front + p) == Ending(front, 3 - |p|) + p
  {
  }

  /** The number of a short key that ends in up to three digits. */
  lemma NumberAfter(front: string, p: string)
    requires AllDigits(p) && 1 <= |p| <= 3 && |front + p| < 0x8000_0000
    ensures KeyNumber(front + p) == Some(Number(Ending(front, 3 - |p|)) * Pow10(|p|) + Value(p))
  {
    var key := front + p;
    hide LastThree, Ending, Number;
    ShortKeyNumber(key);
    LastThreeAfter(front, p);
    NumberConcat(Ending(front, 3 - |p|), p);
  }

  lemma NumberOfLongNumeral(front: string, p: string)
    requires AllDigits(p) && |p| >= 3 && |front + p| < 0x8000_0000
    ensures KeyNumber(front + p) == Some(Value(p[|p| - 3..]))
  {
    var key, t := front + p, p[|p| - 3..];
    ShortKeyNumber(key);
    assert LastThree(key) == t;
    KeepDigitsAll(t);
  }

  /** After a blank tail the number is the index modulo 1000. */
  lemma NumberAfterBlanks(front: string, idx: nat)
    requires BlankTail(front) && |front + Print(idx)| < 0x8000_0000
    ensures KeyNumber(front + Print(idx)) == Some(idx % 1000)
  {
    var p := Print(idx);
    PrintTail(idx);
    ValueOfPrint(idx);
    hide Print, Value, KeyNumber, Number;
    if |p| >= 3 {
      NumberOfLongNumeral(front, p);
    } else {
      BlankEnding(front, 3 - |p|);
      NumberAfter(front, p);
    }
  }

  lemma BlankEnding(front: string, n: nat)
    requires BlankTail(front) && n <= 2
    ensures Number(Ending(front, n)) == 0
  {
    var t := Ending(front, n);
    assert forall k :: 0 <= k < |t| ==> t[k] == front[|front| - |t| + k];
    BlankNumber(t);
  }

  /** Without a blank tail index 1 is misread. */
  lemma OneMisread(front: string)
    requires !BlankTail(front) && |front + "1"| < 0x8000_0000
    ensures KeyNumber(front + "1") != Some(1)
  {
    assert AllDigits("1") && Pow10(|"1"|) == 10;
    hide *;
    EndingNotBlank(front);
    NumberAfter(front, "1");
  }

  lemma EndingNotBlank(front: string)
    requires !BlankTail(front)
    ensures Number(Ending(front, 2)) > 0
  {
    hide Number, Blank;
    var t := Ending(front, 2);
    var k :| 0 <= k < |front| && k >= |front| - 2 && !Blank(front[k]);
    assert front[k] == t[k - (|front| - |t|)];
    BlankNumber(t);
  }

  /* ---- keys whose length is no int ---- */

  /** At least 2^31 characters of such a key are kept. */
  lemma LongKeyKept(key: string) returns (from: nat)
    requires |key| >= 0x8000_0000
    ensures from <= |key| && LastThree(key) == key[from..] && (from == 0 || |key| - from >= U32)
  {
    from := if ToInt32(|key|) <= 3 then 0 else ToInt32(|key|) - 3;
    assert key[0..] == key;
  }

  /** What precedes a numeral only makes the number larger. */
  lemma NumberAtLeast(front: string, p: string)
    requires AllDigits(p) && p != ""
    ensures Number(front + p) >= Value(p) && Number(front + p) >= 10 * Number(front)
  {
    assert Pow10(1) == 10;
    hide Number, Value, Pow10;
    NumberConcat(front, p);
    Pow10Monotone(1, |p|);
    TenfoldAtLeast(Number(front), Pow10(|p|), Value(p));
  }

  lemma TenfoldAtLeast(v: nat, q: nat, w: nat)
    requires q >= 10
    ensures v * q + w >= w && v * q + w >= 10 * v
  {
    MulLe(10, q, v);
  }

  /** And so does text after it. */
  lemma NumberGrows(front: string, t: string)
    ensures Number(front + t) >= Number(front)
  {
    KeepDigitsConcat(front, t);
    hide Value, KeepDigits;
    var a, b := KeepDigits(front), KeepDigits(t);
    ValueConcat(a, b);
    MulLe(1, Pow10(|b|), Value(a));
  }

  lemma NumberIs(key: string)
    ensures KeyNumber(key).Some? ==> KeyNumber(key).value == Number(LastThree(key))
  {
  }

  lemma LongKeyMisread(front: string, idx: uint32)
    requires |front + Print(idx)| >= 0x8000_0000 && idx >= 1000
    ensures KeyNumber(front + Print(idx)) != Some(idx % 1000)
  {
    var key, p := front + Print(idx), Print(idx);
    var from := LongKeyKept(key);
    NumeralOfPrint(idx);
    ValueOfPrint(idx);
    NumberIs(key);
    hide LastThree, KeyNumber, Number, Value, Print;
    assert key[from..] == front[from..] + p;
    NumberAtLeast(front[from..], p);
  }

  lemma CutFront(front: string, tail: string, from: nat)
    requires from <= |front|
    ensures (front + tail)[from..] == front[from..] + tail
  {
  }

  lemma NumberTwice(f: string, p: string, repeat: string)
    requires AllDigits(p) && p != ""
    ensures Number(f + (p + repeat + p)) >= 10 * Value(p)
  {
    hide Number, Value;
    NumberAtLeast(f, p);
    NumberGrows(f + p, repeat);
    NumberAtLeast(f + p + repeat, p);
    assert f + p + repeat + p == f + (p + repeat + p);
  }

  /** A numeral that comes twice is misread as more than ten times its value. */
  lemma TwiceMisread(front: string, repeat: string, idx: uint32)
    requires var p := Print(idx);
             |front| + |p + repeat + p| >= 0x8000_0000 && |p + repeat + p| < U32
    requires 1 <= idx < 1000
    ensures var p := Print(idx); KeyNumber(front + (p + repeat + p)) != Some(idx % 1000)
  {
    var p := Print(idx);
    ValueOfPrint(idx);
    hide Print;
    var tail := p + repeat + p;
    var from := LongKeyKept(front + tail);
    NumberIs(front + tail);
    hide LastThree, KeyNumber, Number, Value;
    CutFront(front, tail, from);
    NumberTwice(front[from..], p, repeat);
  }

  /* ---- when the keys of a seeded dataset carry their indices ---- */

  /** Each key carries its index modulo 1000. */
  ghost predicate NumbersFollow(base: string, limit: uint32, repeat: string) {
    forall idx: uint32 :: KeyNumber(Filled(base, limit, repeat, idx)) == Some(idx % 1000)
  }

  /** The length of every key, for indices of 1 to 10 digits, is an int. */
  predicate KeySizesFit(base: string, limit: uint32, repeat: string) {
    forall d :: 1 <= d <= 10 ==> SizeFits(base, limit, repeat, d)
  }

  predicate SizeFits(base: string, limit: uint32, repeat: string, d: nat)
    requires d >= 1
  {
    FilledLength(|base|, limit, |repeat| + d) < 0x8000_0000
  }

  /** What precedes the last numeral of a key ends in blanks: the end of repeat,
      or, when that is too short, of seed and repeat, unless another copy comes
      between. */
  predicate BlankBefore(base: string, limit: uint32, repeat: string) {
    if |repeat| >= 2 then BlankTail(repeat)
    else BlankTail(base + repeat) && Copies(|base|, |repeat| + 1, Target(limit)) == 1
  }

  /** A generated key ends in a whole extension, and is one if one is enough. */
  lemma FilledEnding(base: string, limit: uint32, repeat: string, idx: nat) returns (front: string)
    ensures Filled(base, limit, repeat, idx) == front + repeat + Print(idx)
    ensures var ext := Extension(repeat, idx);
            var k := Copies(|base|, |ext|, Target(limit));
            && (k == 1 ==> front == base)
            && (k > 1 ==> |front| >= |ext| && front[|front| - |ext|..] == ext)
  {
    var ext := Extension(repeat, idx);
    var k := Copies(|base|, |ext|, Target(limit));
    front := base + Repeated(ext, k - 1);
    hide Copies, Target;
    assert base + (Repeated(ext, k - 1) + ext) == front + repeat + Print(idx);
    if k == 1 {
      assert base + "" == base;
    } else {
      assert front == base + Repeated(ext, k - 2) + ext;
    }
  }

  lemma FewerCopies(length: nat, step: nat, more: nat, target: nat)
    requires 0 < step <= more && Copies(length, step, target) == 1
    ensures Copies(length, more, target) == 1
  {
  }

  /** The key of an item carries its index modulo 1000. */
  lemma SeededKeyNumber(base: string, limit: uint32, repeat: string, idx: uint32)
    requires KeySizesFit(base, limit, repeat) && BlankBefore(base, limit, repeat)
    ensures |Filled(base, limit, repeat, idx)| < 0x8000_0000
    ensures KeyNumber(Filled(base, limit, repeat, idx)) == Some(idx % 1000)
  {
    NumeralOfPrint(idx);
    FilledLengthIs(base, limit, repeat, idx);
    var front := FilledEnding(base, limit, repeat, idx);
    if |repeat| < 2 {
      FewerCopies(|base|, |repeat| + 1, |Extension(repeat, idx)|, Target(limit));
    }
    assert SizeFits(base, limit, repeat, |Print(idx)|);
    hide Filled, FilledLength, Copies, Target, Print, KeyNumber;
    assert BlankTail(front + repeat);
    NumberAfterBlanks(front + repeat, idx);
  }

  /** The keys of a seeded dataset carry their indices exactly if their lengths
      are ints and a blank tail precedes the numeral. */
  lemma NumbersFollowIff(base: string, limit: uint32, repeat: string)
    ensures NumbersFollow(base, limit, repeat) <==> KeySizesFit(base, limit, repeat) && BlankBefore(base, limit, repeat)
  {
    if !KeySizesFit(base, limit, repeat) {
      LongKeysMisread(base, limit, repeat);
    } else if !BlankBefore(base, limit, repeat) {
      FirstKeyMisread(base, limit, repeat);
    } else {
      forall idx: uint32
        ensures KeyNumber(Filled(base, limit, repeat, idx)) == Some(idx % 1000)
      {
        SeededKeyNumber(base, limit, repeat, idx);
      }
    }
  }

  lemma PrintOne()
    ensures Print(1) == "1"
  {
  }

  lemma FirstKeyMisread(base: string, limit: uint32, repeat: string)
    requires KeySizesFit(base, limit, repeat) && !BlankBefore(base, limit, repeat)
    ensures !NumbersFollow(base, limit, repeat)
  {
    PrintOne();
    FilledLengthIs(base, limit, repeat, 1);
    var front := FilledEnding(base, limit, repeat, 1);
    assert SizeFits(base, limit, repeat, 1);
    hide Filled, FilledLength, Copies, Target, Print, KeyNumber;
    var s := front + repeat;
    assert !BlankTail(s) by {
      if |repeat| >= 2 {
        var k :| 0 <= k < |repeat| && k >= |repeat| - 2 && !Blank(repeat[k]);
        assert s[|front| + k] == repeat[k];
      } else if Copies(|base|, |repeat| + 1, Target(limit)) != 1 {
        assert s[|front| - 1] == Extension(repeat, 1)[|repeat|] == '1';
      }
    }
    OneMisread(s);
    var idx: uint32 := 1;
    assert KeyNumber(Filled(base, limit, repeat, idx)) != Some(idx % 1000);
  }

  /** The least index of d digits. */
  lemma OfDigits(d: nat) returns (idx: uint32)
    requires 1 <= d <= 10
    ensures |Print(idx)| == d && idx >= 1 && (d >= 4 ==> idx >= 1000) && (d <= 3 ==> idx < 1000)
  {
    Billion();
    Pow10Monotone(d - 1, 9);
    idx := Pow10(d - 1);
    PrintLength(idx, d);
    if d > 1 {
      PrintLength(idx, d - 1);
    }
    assert Pow10(3) == 1000;
    if d >= 4 {
      Pow10Monotone(3, d - 1);
    }
  }

  lemma LongKeysMisread(base: string, limit: uint32, repeat: string)
    requires !KeySizesFit(base, limit, repeat)
    ensures !NumbersFollow(base, limit, repeat)
  {
    var d :| 1 <= d <= 10 && !SizeFits(base, limit, repeat, d);
    var e := if |base| + |repeat| + 4 >= 0x8000_0000 then 4 else d;
    var idx := OfDigits(e);
    AtLeastOne(|base|, limit, |repeat| + e);
    hide FilledLength, Copies, Target, Print, KeyNumber, KeySizesFit;
    LongFilledMisread(base, limit, repeat, idx);
    assert KeyNumber(Filled(base, limit, repeat, idx)) != Some(idx % 1000);
  }

  lemma LongFilledMisread(base: string, limit: uint32, repeat: string, idx: uint32)
    requires idx >= 1 && FilledLength(|base|, limit, |repeat| + |Print(idx)|) >= 0x8000_0000
    requires idx >= 1000 || (|repeat| < 0x8000_0000 && Copies(|base|, |repeat| + |Print(idx)|, Target(limit)) > 1)
    ensures KeyNumber(Filled(base, limit, repeat, idx)) != Some(idx % 1000)
  {
    FilledLengthIs(base, limit, repeat, idx);
    NumeralOfPrint(idx);
    var front := FilledEnding(base, limit, repeat, idx);
    hide Filled, FilledLength, Copies, Target, Print, KeyNumber;
    if idx >= 1000 {
      LongKeyMisread(front + repeat, idx);
    } else {
      TwiceFilledMisread(front, repeat, idx);
    }
  }

  lemma TwiceFilledMisread(front: string, repeat: string, idx: uint32)
    requires 1 <= idx < 1000 && |repeat| < 0x8000_0000 && |front + repeat + Print(idx)| >= 0x8000_0000
    requires var ext := Extension(repeat, idx); |front| >= |ext| && front[|front| - |ext|..] == ext
    ensures KeyNumber(front + repeat + Print(idx)) != Some(idx % 1000)
  {
    var p := Print(idx);
    NumeralOfPrint(idx);
    hide Print, KeyNumber;
    var before := LastCopy(front, repeat, p);
    var tail := p + repeat + p;
    assert |front + repeat + p| == |before + tail| == |before| + |tail|;
    TwiceMisread(before, repeat, idx);
  }

  lemma LastCopy(front: string, repeat: string, p: string) returns (before: string)
    requires |front| >= |repeat + p| && front[|front| - |repeat + p|..] == repeat + p
    ensures front + repeat + p == before + (p + repeat + p)
  {
    var n := |front| - |repeat + p|;
    before := front[..n] + repeat;
    assert front == front[..n] + (repeat + p);
    assert front[..n] + (repeat + p) == before + p;
  }

  lemma AtLeastOne(length: nat, limit: uint32, step: nat)
    requires step > 0
    ensures FilledLength(length, limit, step) >= length + step
    ensures FilledLength(length, limit, step) > length + step ==> Copies(length, step, Target(limit)) > 1
  {
    var k := Copies(length, step, Target(limit));
    MulLe(1, k, step);
  }

  /** Sizes, seeds and repeat strings for which the lengths are ints. */
  lemma SizesFit(base: string, limit: uint32, repeat: string)
    requires 1 <= limit && |base| + |repeat| + 10 < 0x8000_0000 && limit + |repeat| + 9 <= 0x8000_0000
    ensures KeySizesFit(base, limit, repeat)
  {
    forall d | 1 <= d <= 10
      ensures SizeFits(base, limit, repeat, d)
    {
      FilledLengthBound(|base|, limit, |repeat| + d);
    }
  }

  /** A size of 0, which stands for 2^32 - 1 characters, and one above 2^31 make
      every seed and repeat string fail. */
  lemma SizeZeroMisreads(base: string, limit: uint32, repeat: string)
    requires limit == 0 || limit > 0x8000_0000
    ensures !NumbersFollow(base, limit, repeat)
  {
    CopiesLeast(|base|, |repeat| + 1, Target(limit));
    assert !SizeFits(base, limit, repeat, 1);
    LongKeysMisread(base, limit, repeat);
  }

  /* ---- the routing of a seeded dataset ---- */

  predicate Readable(spec: SeedSpec) {
    KeySizesFit(spec.kseed, spec.ksize, spec.repeat) && BlankBefore(spec.kseed, spec.ksize, spec.repeat)
  }

  /** Such a dataset is one whose item numbers can be read back from its keys. */
  lemma ReadableIff(spec: SeedSpec)
    ensures Readable(spec) <==> forall idx: uint32 :: KeyNumber(Seeded(spec).KeyAt(idx)) == Some(idx % 1000)
  {
    hide KeySizesFit, BlankBefore, KeyNumber, Filled;
    NumbersFollowIff(spec.kseed, spec.ksize, spec.repeat);
    assert forall idx: uint32 :: Seeded(spec).KeyAt(idx) == Filled(spec.kseed, spec.ksize, spec.repeat, idx);
  }

  /** Closed form of the routing of a seeded dataset. */
  lemma SeededRoute(opts: HandleOptions, spec: SeedSpec, idx: uint32, total: nat)
    requires opts.useCollections && Readable(spec) && total == opts.collections * opts.scopes > 0
    ensures opts.collections >= 1
    ensures GetCollection(opts, Seeded(spec).KeyAt(idx)) == Some(PairOf(opts.collections, idx % 1000 % total))
  {
    var key := Seeded(spec).KeyAt(idx);
    SeededKeyNumber(spec.kseed, spec.ksize, spec.repeat, idx);
    var front := FilledEnding(spec.kseed, spec.ksize, spec.repeat, idx);
    NonZeroFactor(opts.collections, opts.scopes);
    hide Filled, KeyNumber, Print;
    RouteExact(opts, key);
  }

  /** Every created collection receives an item of the dataset. */
  ghost predicate Covers(opts: HandleOptions, spec: SeedSpec) {
    forall i: nat, j: nat :: CreateCollection(Print(i), Print(j)) in CreatedFor(opts) ==> Receives(opts, spec, i, j)
  }

  ghost predicate Receives(opts: HandleOptions, spec: SeedSpec, i: nat, j: nat) {
    exists idx: uint32 ::
      idx < spec.count && GetCollection(opts, Seeded(spec).KeyAt(idx)) == Some((Print(i), Print(j)))
  }

  /** The dataset covers the created collections exactly when there are at most
      1000 of them and no more than items. */
  lemma CoversIff(opts: HandleOptions, spec: SeedSpec, total: nat)
    requires opts.useCollections && 0 < opts.scopes < 0x8000_0000 && 0 < opts.collections < 0x8000_0000
    requires total == opts.collections * opts.scopes && Readable(spec)
    ensures Covers(opts, spec) <==> total <= 1000 && total <= spec.count
  {
    MulLe(1, opts.collections, opts.scopes);
    hide *;
    if total <= 1000 && total <= spec.count {
      Covered(opts, spec, total);
    } else {
      Uncovered(opts, spec, total, if total > 1000 && spec.count > 1000 then 1000 else spec.count);
    }
  }

  lemma Covered(opts: HandleOptions, spec: SeedSpec, total: nat)
    requires opts.useCollections && 0 < opts.scopes < 0x8000_0000 && 0 < opts.collections < 0x8000_0000
    requires total == opts.collections * opts.scopes && Readable(spec) && total <= 1000 && total <= spec.count
    ensures Covers(opts, spec)
  {
    hide Readable, Receives, CreatedFor, Print;
    forall i: nat, j: nat | CreateCollection(Print(i), Print(j)) in CreatedFor(opts)
      ensures Receives(opts, spec, i, j)
    {
      CreatedNumbers(opts, i, j, total);
      ReceivesCreated(opts, spec, total, i, j);
    }
  }

  lemma Uncovered(opts: HandleOptions, spec: SeedSpec, total: nat, j: nat)
    requires opts.useCollections && 0 < opts.scopes < 0x8000_0000 && 0 < opts.collections < 0x8000_0000
    requires total == opts.collections * opts.scopes && Readable(spec)
    requires j < total && (j >= 1000 || j >= spec.count)
    ensures !Covers(opts, spec)
  {
    hide *;
    var i, _ := DivMod(j, opts.collections);
    CreatedNumbers(opts, i, j, total);
    NotReceived(opts, spec, total, i, j);
    OneUncovered(opts, spec, i, j);
  }

  lemma OneUncovered(opts: HandleOptions, spec: SeedSpec, i: nat, j: nat)
    requires CreateCollection(Print(i), Print(j)) in CreatedFor(opts) && !Receives(opts, spec, i, j)
    ensures !Covers(opts, spec)
  {
    hide CreatedFor, Receives, Print;
  }

  /** The created collections are those below the total, in the scopes they belong to. */
  lemma CreatedNumbers(opts: HandleOptions, i: nat, j: nat, total: nat)
    requires 0 < opts.scopes < 0x8000_0000 && 0 < opts.collections < 0x8000_0000
    requires total == opts.collections * opts.scopes
    ensures CreateCollection(Print(i), Print(j)) in CreatedFor(opts) <==> i == j / opts.collections && j < total
  {
    hide Plan, Print;
    PlanNumbers(opts.scopes, opts.collections, i, j);
    QuotientBelow(j, opts.collections, opts.scopes);
  }

  lemma QuotientBelow(j: nat, c: nat, scopes: nat)
    requires c >= 1
    ensures j / c < scopes <==> j < c * scopes
  {
    var q, r := DivMod(j, c);
    assert c * scopes == scopes * c;
    if q < scopes {
      MulLe(q + 1, scopes, c);
      assert (q + 1) * c == q * c + c;
    } else {
      MulLe(scopes, q, c);
    }
  }

  lemma ReceivesCreated(opts: HandleOptions, spec: SeedSpec, total: nat, i: nat, j: uint32)
    requires opts.useCollections && Readable(spec) && total == opts.collections * opts.scopes
    requires opts.collections >= 1 && i == j / opts.collections && j < total <= 1000 && total <= spec.count
    ensures Receives(opts, spec, i, j)
  {
    SeededRoute(opts, spec, j, total);
    ModSmall(j, 1000);
    ModSmall(j, total);
  }

  lemma NotReceived(opts: HandleOptions, spec: SeedSpec, total: nat, i: nat, j: nat)
    requires opts.useCollections && Readable(spec) && total == opts.collections * opts.scopes > 0
    requires j >= 1000 || j >= spec.count
    ensures !Receives(opts, spec, i, j)
  {
    hide Readable, GetCollection;
    if Receives(opts, spec, i, j) {
      var idx: uint32 :| idx < spec.count && GetCollection(opts, Seeded(spec).KeyAt(idx)) == Some((Print(i), Print(j)));
      SeededRoute(opts, spec, idx, total);
      ModLess(idx, 1000);
      ModLess(idx % 1000, total);
      PrintInjective(idx % 1000 % total, j);
    }
  }

  /** The keys of numbered datasets carry their indices as long as these are ints;
      larger ones print as negative numbers. */
  lemma NumberedKeyNumber(idx: uint32)
    ensures KeyNumber(PrintInt(ToInt32(idx))) == Some((if idx < 0x8000_0000 then idx else U32 - idx) % 1000)
  {
    var n := if idx < 0x8000_0000 then idx else U32 - idx;
    NumeralOfPrint(n);
    PrintSigned(idx);
    hide Print, KeyNumber, PrintInt, ToInt32;
    NumberAfterBlanks(if idx < 0x8000_0000 then "" else "-", n);
  }

  lemma PrintSigned(idx: uint32)
    ensures PrintInt(ToInt32(idx)) ==
            (if idx < 0x8000_0000 then "" + Print(idx) else "-" + Print(U32 - idx))
  {
    hide Print;
    assert "" + Print(idx) == Print(idx);
  }
}
