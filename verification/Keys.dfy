/** When the items of a dataset have distinct keys. */
module Keys {
  import opened Arith
  import opened Decimal
  import opened Prelude
  import opened Datasets

  /** Whatever the seed and the size, distinct indices give distinct keys. */
  ghost predicate KeysDistinct(repeat: string) {
    forall base: string, limit: uint32, i: uint32, j: uint32 ::
      i != j ==> Filled(base, limit, repeat, i) != Filled(base, limit, repeat, j)
  }

  /* ---- a repeat string with a character that is no digit ---- */

  lemma {:induction false} RepeatedNonDigits(ext: string, k: nat)
    ensures NonDigits(Repeated(ext, k)) == k * NonDigits(ext)
  {
    if k > 0 {
      RepeatedNonDigits(ext, k - 1);
      NonDigitsConcat(Repeated(ext, k - 1), ext);
      assert k * NonDigits(ext) == (k - 1) * NonDigits(ext) + NonDigits(ext);
    }
  }

  lemma {:induction false} RepeatedHead(ext: string, k: nat)
    requires k >= 1
    ensures |Repeated(ext, k)| >= |ext| && Repeated(ext, k)[..|ext|] == ext
  {
    if k > 1 {
      RepeatedHead(ext, k - 1);
    }
  }

  lemma ExtensionNonDigits(repeat: string, i: nat)
    ensures NonDigits(Extension(repeat, i)) == NonDigits(repeat)
  {
    NonDigitsConcat(repeat, Print(i));
    NonDigitsZero(Print(i));
  }

  /** Equal non-digit counts force equal numbers of copies. */
  lemma SameCount(repeat: string, i: nat, j: nat, k: nat, m: nat)
    requires NonDigits(repeat) > 0
    requires Repeated(Extension(repeat, i), k) == Repeated(Extension(repeat, j), m)
    ensures k == m
  {
    var d := NonDigits(repeat);
    assert k * d == m * d by {
      RepeatedNonDigits(Extension(repeat, i), k);
      RepeatedNonDigits(Extension(repeat, j), m);
      ExtensionNonDigits(repeat, i);
      ExtensionNonDigits(repeat, j);
    }
    MulCancel(d, k, m);
  }

  /** Equally many copies, hence equally long ones, hence the same one. */
  lemma SameCopy(repeat: string, i: nat, j: nat, k: nat)
    requires k >= 1 && Repeated(Extension(repeat, i), k) == Repeated(Extension(repeat, j), k)
    ensures i == j
  {
    var a, b := Extension(repeat, i), Extension(repeat, j);
    assert |a| == |b| by {
      RepeatedLength(a, k);
      RepeatedLength(b, k);
      MulCancel(k, |a|, |b|);
    }
    RepeatedHead(a, k);
    RepeatedHead(b, k);
    assert Print(i) == a[|repeat|..] && Print(j) == b[|repeat|..];
    PrintInjective(i, j);
  }

  /** The copies of a key, without its seed. */
  lemma CopiesOf(base: string, limit: uint32, repeat: string, i: nat) returns (ext: string, k: nat)
    ensures ext == Extension(repeat, i) && k == Copies(|base|, |ext|, Target(limit))
    ensures |Filled(base, limit, repeat, i)| >= |base|
    ensures Repeated(ext, k) == Filled(base, limit, repeat, i)[|base|..]
  {
    ext := Extension(repeat, i);
    k := Copies(|base|, |ext|, Target(limit));
  }

  /** A repeat string with a character that is no digit keeps all keys apart. */
  lemma SeededKeysInjective(base: string, limit: uint32, repeat: string, i: nat, j: nat)
    requires !AllDigits(repeat)
    requires Filled(base, limit, repeat, i) == Filled(base, limit, repeat, j)
    ensures i == j
  {
    NonDigitsZero(repeat);
    var _, k := CopiesOf(base, limit, repeat, i);
    var _, m := CopiesOf(base, limit, repeat, j);
    SameCount(repeat, i, j, k, m);
    SameCopy(repeat, i, j, k);
  }

  /* ---- a repeat string of digits: two extensions with a common word ---- */

  /** Character x of endlessly many copies of u. */
  function At(u: string, x: nat): char
    requires u != []
  {
    u[x % |u|]
  }

  lemma {:induction false} RepeatedAt(u: string, k: nat, x: nat)
    requires u != [] && x < k * |u|
    ensures |Repeated(u, k)| == k * |u| && Repeated(u, k)[x] == At(u, x)
  {
    RepeatedLength(u, k);
    RepeatedLength(u, k - 1);
    var n := (k - 1) * |u|;
    assert k * |u| == n + |u|;
    if x < n {
      RepeatedAt(u, k - 1, x);
    } else {
      DivModUnique(x, |u|, k - 1, x - n);
    }
  }

  /** Endless copies that agree at a common end agree everywhere. */
  lemma SameEndless(u: string, v: string, k: nat, m: nat, x: nat)
    requires u != [] && v != [] && k >= 1 && m >= 1 && Repeated(u, k) == Repeated(v, m)
    ensures At(u, x) == At(v, x)
  {
    RepeatedLength(u, k);
    RepeatedLength(v, m);
    ModMod(x, k, |u|);
    ModMod(x, m, |v|);
    var y := x % (k * |u|);
    RepeatedAt(u, k, y);
    RepeatedAt(v, m, y);
  }

  ghost predicate PeriodAt(u: string, q: nat, x: nat)
    requires u != []
  {
    At(u, x + q) == At(u, x)
  }

  ghost predicate Period(u: string, q: nat)
    requires u != []
  {
    forall x: nat :: PeriodAt(u, q, x)
  }

  lemma PeriodDifference(u: string, a: nat, b: nat)
    requires u != [] && Period(u, a) && Period(u, b) && a <= b
    ensures Period(u, b - a)
  {
    hide At;
    var d := b - a;
    forall x: nat
      ensures PeriodAt(u, d, x)
    {
      assert PeriodAt(u, a, x + d) && PeriodAt(u, b, x);
    }
  }

  lemma {:induction false} PeriodGcd(u: string, a: nat, b: nat)
    requires u != [] && a >= 1 && b >= 1 && Period(u, a) && Period(u, b)
    ensures Period(u, Gcd(a, b))
    decreases a + b
  {
    hide Period;
    if a < b {
      PeriodDifference(u, a, b);
      PeriodGcd(u, a, b - a);
    } else if b < a {
      PeriodDifference(u, b, a);
      PeriodGcd(u, a - b, b);
    }
  }

  lemma {:induction false} PeriodMod(u: string, g: nat, x: nat)
    requires u != [] && g >= 1 && Period(u, g)
    ensures At(u, x) == At(u, x % g)
  {
    hide At;
    if x >= g {
      assert PeriodAt(u, g, x - g);
      PeriodMod(u, g, x - g);
      ModMinus(x, g);
    }
  }

  /** Two words with a common power are powers of one word, as long as the
      greatest common divisor of their lengths. */
  lemma CommonPeriod(u: string, v: string, k: nat, m: nat, x: nat)
    requires u != [] && v != [] && k >= 1 && m >= 1 && Repeated(u, k) == Repeated(v, m)
    ensures At(u, x) == At(u, x % Gcd(|u|, |v|)) == At(v, x)
  {
    forall y: nat
      ensures PeriodAt(u, |u|, y) && PeriodAt(u, |v|, y)
    {
      ModMinus(y + |u|, |u|);
      ModMinus(y + |v|, |v|);
      SameEndless(u, v, k, m, y);
      SameEndless(u, v, k, m, y + |v|);
    }
    PeriodGcd(u, |u|, |v|);
    PeriodMod(u, Gcd(|u|, |v|), x);
    SameEndless(u, v, k, m, x);
  }

  /* ---- when a repeat string of digits lets two keys collide ---- */

  /** The first p characters of s come again and again. */
  predicate Periodic(s: string, p: nat)
    requires 0 < p <= |s|
  {
    forall x :: 0 <= x < |s| ==> s[x] == s[x % p]
  }

  /** The d characters that follow s when its first p go on repeating. */
  function Continued(s: string, p: nat, d: nat): (t: string)
    requires 0 < p <= |s|
    ensures |t| == d
  {
    seq(d, x requires x >= 0 => s[(|s| + x) % p])
  }

  /** The numeral of an unsigned int. */
  predicate Numeral(s: string) {
    s != [] && AllDigits(s) && (s[0] == '0' ==> |s| == 1) && Value(s) < U32
  }

  lemma NumeralOfPrint(n: uint32)
    ensures Numeral(Print(n)) && 1 <= |Print(n)| <= 10
  {
    PrintHead(n);
    ValueOfPrint(n);
    PrintLength(n, 10);
    Billion();
  }

  lemma PrintOfNumeral(s: string)
    requires Numeral(s)
    ensures Print(Value(s)) == s
  {
    if s[0] == '0' {
      assert s[..0] == [] && Value(s) == 0;
      assert s == ['0'];
    } else {
      PrintOfValue(s);
    }
  }

  /** With numerals of d and of e digits appended, repeat becomes two powers of
      its first p characters, and the least common length of their copies is in
      the reach of a 32-bit size. */
  predicate CollidesAt(repeat: string, p: nat, d: nat, e: nat)
    requires |repeat| >= 9
  {
    && 1 <= p <= 9 && 1 <= d < e <= 10
    && (|repeat| + d) % p == 0 && (|repeat| + e) % p == 0
    && Periodic(repeat, p) && Numeral(Continued(repeat, p, d)) && Numeral(Continued(repeat, p, e))
    && ((|repeat| + e) / p - 1) * (|repeat| + d) < U32 - 1
  }

  predicate Collides(repeat: string) {
    && AllDigits(repeat)
    && (|repeat| <= 8 || exists p, d, e :: 0 <= p <= 9 && 0 <= d <= 10 && 0 <= e <= 10 && CollidesAt(repeat, p, d, e))
  }

  /** Keys that collide on a long repeat string show the common period. */
  lemma CollisionPeriod(repeat: string, i: uint32, j: uint32, k: nat, m: nat)
    requires |repeat| >= 9 && |Extension(repeat, i)| < |Extension(repeat, j)|
    requires k >= 1 && m >= 1 && Repeated(Extension(repeat, i), k) == Repeated(Extension(repeat, j), m)
    requires (k - 1) * |Extension(repeat, i)| < U32 - 1
    ensures exists p, d, e :: 0 <= p <= 9 && 0 <= d <= 10 && 0 <= e <= 10 && CollidesAt(repeat, p, d, e)
  {
    hide Repeated, Reduces, Numeral, Periodic, Continued, Print;
    var u, v := Extension(repeat, i), Extension(repeat, j);
    var p, d, e := Gcd(|u|, |v|), |Print(i)|, |Print(j)|;
    NumeralOfPrint(i);
    NumeralOfPrint(j);
    PeriodIsShort(|u|, |v|);
    FewestCopies(u, v, k, m);
    BothPeriodic(u, v, k, m, p);
    PeriodicParts(repeat, Print(i), p);
    PeriodicParts(repeat, Print(j), p);
    assert CollidesAt(repeat, p, d, e);
  }

  /** The characters of u have period p. */
  ghost predicate Reduces(u: string, p: nat)
    requires u != [] && p >= 1
  {
    forall x: nat :: At(u, x) == At(u, x % p)
  }

  lemma BothPeriodic(u: string, v: string, k: nat, m: nat, p: nat)
    requires u != [] && v != [] && k >= 1 && m >= 1 && Repeated(u, k) == Repeated(v, m)
    requires p == Gcd(|u|, |v|)
    ensures Reduces(u, p) && Reduces(v, p)
  {
    hide At, Repeated;
    forall x: nat
      ensures At(u, x) == At(u, x % p) && At(v, x) == At(v, x % p)
    {
      CommonPeriod(u, v, k, m, x);
      CommonPeriod(u, v, k, m, x % p);
    }
  }

  lemma PeriodIsShort(a: nat, b: nat)
    requires 1 <= a < b <= a + 9
    ensures 1 <= Gcd(a, b) <= 9 && a % Gcd(a, b) == 0 && b % Gcd(a, b) == 0
  {
    var x, y := GcdDivides(a, b);
    hide Gcd;
    var g := Gcd(a, b);
    MulMod(x, g);
    MulMod(y, g);
    MultiplesApart(x, y, g);
  }

  lemma MultiplesApart(x: nat, y: nat, g: nat)
    requires x * g < y * g
    ensures y * g >= x * g + g
  {
    if y <= x {
      MulLe(y, x, g);
    } else {
      MulLe(x + 1, y, g);
    }
  }

  /** No fewer copies of u than |v| / gcd end where copies of v do. */
  lemma FewestCopies(u: string, v: string, k: nat, m: nat)
    requires u != [] && v != [] && k >= 1 && m >= 1 && Repeated(u, k) == Repeated(v, m)
    ensures (|v| / Gcd(|u|, |v|) - 1) * |u| <= (k - 1) * |u|
  {
    RepeatedLength(u, k);
    RepeatedLength(v, m);
    FewestMultiples(|u|, |v|, k, m);
    MulLe(|v| / Gcd(|u|, |v|) - 1, k - 1, |u|);
  }

  lemma FewestMultiples(a: nat, b: nat, k: nat, m: nat)
    requires a >= 1 && b >= 1 && k >= 1 && k * a == m * b
    ensures b / Gcd(a, b) <= k
  {
    var t := CommonMultiple(a, b, k, m);
    var _, y := GcdDivides(a, b);
    hide Gcd;
    var g := Gcd(a, b);
    MulDiv(y, g);
    MulLe(1, k, g);
    if t >= 1 {
      MulLe(1, t, b);
    }
    if k < y {
      MulLess(k, y, g);
    }
  }

  /** A word with period p that starts with repeat goes on as its continuation. */
  lemma PeriodicParts(repeat: string, t: string, p: nat)
    requires |repeat| >= p >= 1 && Reduces(repeat + t, p)
    ensures Periodic(repeat, p) && t == Continued(repeat, p, |t|)
  {
    hide At, Reduces;
    forall x: nat | x < |repeat|
      ensures repeat[x] == repeat[x % p]
    {
      ReducedChar(repeat, t, p, x);
    }
    forall x: nat | x < |t|
      ensures t[x] == repeat[(|repeat| + x) % p]
    {
      ReducedChar(repeat, t, p, |repeat| + x);
    }
  }

  lemma ReducedChar(repeat: string, t: string, p: nat, x: nat)
    requires |repeat| >= p >= 1 && Reduces(repeat + t, p) && x < |repeat| + |t|
    ensures (repeat + t)[x] == repeat[x % p]
  {
    var u := repeat + t;
    assert At(u, x) == At(u, x % p);
    ModSmall(x, |u|);
    ModSmall(x % p, |u|);
  }

  /** Extensions with a common power share a key, if the size can ask for it. */
  lemma PowersCollide(repeat: string, i: nat, j: nat, k: nat, m: nat)
    requires |Extension(repeat, i)| < |Extension(repeat, j)| && k >= 1 && m >= 1
    requires Repeated(Extension(repeat, i), k) == Repeated(Extension(repeat, j), m)
    requires (k - 1) * |Extension(repeat, i)| < U32 - 1
    ensures exists limit: uint32 :: Filled("", limit, repeat, i) == Filled("", limit, repeat, j)
  {
    var u, v := Extension(repeat, i), Extension(repeat, j);
    RepeatedLength(u, k);
    RepeatedLength(v, m);
    var target: uint32 := (k - 1) * |u| + 1;
    var limit := SizeFor(target);
    hide Repeated, Extension, Target;
    BothReach(|u|, |v|, k, m, target);
    hide Copies;
    assert Filled("", limit, repeat, i) == Filled("", limit, repeat, j);
  }

  /** k copies of length a and m of length b end together, and one less of either
      does not reach the target. */
  lemma BothReach(a: nat, b: nat, k: nat, m: nat, target: nat)
    requires 1 <= a < b && k >= 1 && m >= 1 && k * a == m * b && target == (k - 1) * a + 1
    ensures Copies(0, a, target) == k && Copies(0, b, target) == m
  {
    hide Copies;
    OneLess(k, a);
    OneLess(m, b);
    CopiesUnique(0, a, target, k);
    CopiesUnique(0, b, target, m);
  }

  /** The size that asks for this many characters. */
  lemma SizeFor(target: uint32) returns (limit: uint32)
    ensures Target(limit) == target
  {
    limit := if target == U32 - 1 then 0 else target + 1;
  }

  lemma OneLess(k: int, n: int)
    ensures (k - 1) * n == k * n - n
  {
  }

  lemma RepeatedTwice(u: string)
    ensures Repeated(u, 1) == u && Repeated(u, 2) == u + u
  {
    assert Repeated(u, 0) == "";
    assert Repeated(u, 1) == "" + u == u;
    assert Repeated(u, 2) == Repeated(u, 1) + u;
  }

  /** For up to eight digits, the keys of index 1 and of the index that makes two
      copies of its extension collide. */
  lemma ShortDigitsCollide(repeat: string)
    requires AllDigits(repeat) && |repeat| <= 8
    ensures !KeysDistinct(repeat)
  {
    var s := "1" + repeat + "1";
    assert Numeral(s) by {
      LeadingOne(repeat + "1");
      assert s == "1" + (repeat + "1");
    }
    PrintOfNumeral(s);
    assert Print(1) == "1";
    var j: uint32 := Value(s);
    var u, v := Extension(repeat, 1), Extension(repeat, j);
    assert u == repeat + "1" && v == u + u;
    RepeatedTwice(u);
    RepeatedTwice(v);
    PowersCollide(repeat, 1, j, 2, 1);
  }

  lemma LeadingOne(t: string)
    requires AllDigits(t) && |t| <= 9
    ensures AllDigits("1" + t) && Value("1" + t) < U32
  {
    assert Value("1") == 1 by {
      assert "1"[..0] == [];
    }
    hide Value, Pow10;
    ValueConcat("1", t);
    ValueBound(t, |t|);
    Pow10Monotone(|t|, 9);
    Billion();
  }

  lemma {:induction false} Pow10Monotone(a: nat, b: nat)
    requires a <= b
    ensures Pow10(a) <= Pow10(b)
  {
    if a < b {
      Pow10Monotone(a, b - 1);
    }
  }

  /** A periodic repeat string of nine or more digits collides as well. */
  lemma PeriodicDigitsCollide(repeat: string, p: nat, d: nat, e: nat)
    requires |repeat| >= 9 && CollidesAt(repeat, p, d, e)
    ensures !KeysDistinct(repeat)
  {
    var s, t := Continued(repeat, p, d), Continued(repeat, p, e);
    PrintOfNumeral(s);
    PrintOfNumeral(t);
    var i: uint32, j: uint32 := Value(s), Value(t);
    assert Extension(repeat, i) == repeat + s && Extension(repeat, j) == repeat + t;
    hide Extension, Repeated, Periodic, Continued, Numeral, Value, Filled;
    var u, v := Extension(repeat, i), Extension(repeat, j);
    var k, m := |v| / p, |u| / p;
    WholePowers(|u|, |v|, p);
    WordFromPeriod(repeat, p, s);
    WordFromPeriod(repeat, p, t);
    WordPowers(repeat[..p], u, v, k, m);
    PowersCollide(repeat, i, j, k, m);
  }

  lemma WholePowers(a: nat, b: nat, p: nat)
    requires a >= 1 && b >= 1 && p >= 1 && a % p == 0 && b % p == 0
    ensures a / p >= 1 && b / p >= 1 && a == a / p * p && b == b / p * p
    ensures b / p * a == a / p * b
  {
    var m, _ := DivMod(a, p);
    var k, _ := DivMod(b, p);
    assert k * (m * p) == m * (k * p);
  }

  /** From position `from` on, endless copies of w read s. */
  predicate Spells(w: string, from: nat, s: string)
    requires w != []
  {
    forall x :: 0 <= x < |s| ==> s[x] == w[(from + x) % |w|]
  }

  lemma WordFromPeriod(repeat: string, p: nat, t: string)
    requires 0 < p <= |repeat| && Periodic(repeat, p) && t == Continued(repeat, p, |t|)
    ensures Spells(repeat[..p], 0, repeat + t)
  {
    forall x | 0 <= x < |repeat + t|
      ensures (repeat + t)[x] == repeat[..p][(0 + x) % |repeat[..p]|]
    {
      if x >= |repeat| {
        assert t[x - |repeat|] == repeat[(|repeat| + (x - |repeat|)) % p];
      }
    }
  }

  /** Powers of one word that end together are the same. */
  lemma WordPowers(w: string, u: string, v: string, k: nat, m: nat)
    requires w != [] && u != [] && v != [] && Spells(w, 0, u) && Spells(w, 0, v)
    requires |u| % |w| == 0 && |v| % |w| == 0 && k * |u| == m * |v|
    ensures Repeated(u, k) == Repeated(v, m)
  {
    RepeatedLength(u, k);
    RepeatedLength(v, m);
    forall x: nat | x < k * |u|
      ensures Repeated(u, k)[x] == Repeated(v, m)[x]
    {
      RepeatedAt(u, k, x);
      RepeatedAt(v, m, x);
      WordAt(w, u, x);
      WordAt(w, v, x);
    }
  }

  lemma WordAt(w: string, u: string, x: nat)
    requires w != [] && u != [] && Spells(w, 0, u) && |u| % |w| == 0
    ensures At(u, x) == w[x % |w|]
  {
    var m, _ := DivMod(|u|, |w|);
    ModMod(x, m, |w|);
    assert u[x % |u|] == w[(0 + x % |u|) % |w|];
  }

  /** Seeded keys are distinct exactly when repeat has a character that is no
      digit, or has nine or more digits whose period does not let the numerals of
      two 32-bit indices continue it. */
  lemma KeysDistinctIff(repeat: string)
    ensures KeysDistinct(repeat) <==> !Collides(repeat)
  {
    if Collides(repeat) {
      if |repeat| <= 8 {
        ShortDigitsCollide(repeat);
      } else {
        var p, d, e :| 0 <= p <= 9 && 0 <= d <= 10 && 0 <= e <= 10 && CollidesAt(repeat, p, d, e);
        PeriodicDigitsCollide(repeat, p, d, e);
      }
    } else {
      hide Collides;
      forall base: string, limit: uint32, i: uint32, j: uint32 | i != j
        ensures Filled(base, limit, repeat, i) != Filled(base, limit, repeat, j)
      {
        if Filled(base, limit, repeat, i) == Filled(base, limit, repeat, j) {
          EqualKeysCollide(base, limit, repeat, i, j);
        }
      }
    }
  }

  lemma EqualKeysCollide(base: string, limit: uint32, repeat: string, i: uint32, j: uint32)
    requires i != j && Filled(base, limit, repeat, i) == Filled(base, limit, repeat, j)
    ensures Collides(repeat)
  {
    if !AllDigits(repeat) {
      SeededKeysInjective(base, limit, repeat, i, j);
    } else if |repeat| > 8 {
      var u, k := CopiesOf(base, limit, repeat, i);
      var v, m := CopiesOf(base, limit, repeat, j);
      RepeatedLength(u, k);
      RepeatedLength(v, m);
      CopiesLeast(|base|, |u|, Target(limit));
      CopiesLeast(|base|, |v|, Target(limit));
      hide Filled, Extension, Repeated, Target;
      if |u| < |v| {
        CollisionPeriod(repeat, i, j, k, m);
      } else if |v| < |u| {
        CollisionPeriod(repeat, j, i, m, k);
      } else {
        MulCancel(|u|, k, m);
        SameCopy(repeat, i, j, k);
      }
    }
  }

  /** Nine different digits have no shorter period, so they keep all keys apart. */
  lemma NineDigitsDistinct()
    ensures KeysDistinct("123456789")
  {
    var repeat := "123456789";
    KeysDistinctIff(repeat);
    hide KeysDistinct, Numeral, Continued, Periodic;
    forall p, d, e | 0 <= p <= 9 && 0 <= d <= 10 && 0 <= e <= 10
      ensures !CollidesAt(repeat, p, d, e)
    {
      if 1 <= p <= 8 {
        NoShortPeriod(p);
      }
    }
  }

  lemma NoShortPeriod(p: nat)
    requires 1 <= p <= 8
    ensures !Periodic("123456789", p)
  {
    var s := "123456789";
    assert p % p == 0 && s[p] != s[0];
  }

  /* ---- the keys of one dataset ---- */

  /** The items of the dataset have distinct keys. */
  ghost predicate ItemKeysDistinct(spec: SeedSpec) {
    forall i: uint32, j: uint32 :: i < spec.count && j < spec.count && i != j ==>
      Seeded(spec).KeyAt(i) != Seeded(spec).KeyAt(j)
  }

  /** What follows s when endless copies of w read it. */
  function Reading(w: string, from: nat, d: nat): (t: string)
    requires w != []
    ensures |t| == d && Spells(w, from, t)
  {
    seq(d, x requires x >= 0 => w[(from + x) % |w|])
  }

  predicate ItemNumeral(spec: SeedSpec, s: string) {
    Numeral(s) && Value(s) < spec.count
  }

  /** Copies of the word w read repeat and go on with the numerals, of d and of e
      digits, of two items; with either numeral whole copies of w are used up, and
      both keys get the same length. */
  predicate ItemsCollideAt(spec: SeedSpec, w: string, d: nat, e: nat) {
    var n := |spec.repeat|;
    && 1 <= |w| <= 9 && 1 <= d < e <= 10 && Spells(w, 0, spec.repeat)
    && (n + d) % |w| == 0 && ItemNumeral(spec, Reading(w, n, d))
    && (n + e) % |w| == 0 && ItemNumeral(spec, Reading(w, n, e))
    && FilledLength(|spec.kseed|, spec.ksize, n + d) == FilledLength(|spec.kseed|, spec.ksize, n + e)
  }

  ghost predicate ItemsCollide(spec: SeedSpec) {
    exists w: string, d: nat, e: nat :: ItemsCollideAt(spec, w, d, e)
  }

  /** The keys of a seeded dataset are distinct exactly if there is no such word. */
  lemma ItemKeysDistinctIff(spec: SeedSpec)
    ensures ItemKeysDistinct(spec) <==> !ItemsCollide(spec)
  {
    if ItemsCollide(spec) {
      var w: string, d: nat, e: nat :| ItemsCollideAt(spec, w, d, e);
      WordCollides(spec, w, d, e);
    } else {
      hide ItemsCollide, Filled;
      forall i: uint32, j: uint32 | i < spec.count && j < spec.count && i != j
        ensures Seeded(spec).KeyAt(i) != Seeded(spec).KeyAt(j)
      {
        if Seeded(spec).KeyAt(i) == Seeded(spec).KeyAt(j) {
          EqualKeysShowWord(spec, i, j);
        }
      }
    }
  }

  lemma WordCollides(spec: SeedSpec, w: string, d: nat, e: nat)
    requires ItemsCollideAt(spec, w, d, e)
    ensures !ItemKeysDistinct(spec)
  {
    var n := |spec.repeat|;
    var s, t := Reading(w, n, d), Reading(w, n, e);
    hide ItemNumeral, Reading, Spells, FilledLength, Filled;
    var i := ItemOf(spec, s);
    var j := ItemOf(spec, t);
    SpellsBoth(w, spec.repeat, s);
    SpellsBoth(w, spec.repeat, t);
    SameWordSameKey(spec, w, i, j);
    assert |Extension(spec.repeat, i)| == n + d && |Extension(spec.repeat, j)| == n + e;
  }

  lemma ItemOf(spec: SeedSpec, s: string) returns (i: uint32)
    requires ItemNumeral(spec, s)
    ensures i < spec.count && Extension(spec.repeat, i) == spec.repeat + s
  {
    i := Value(s);
    PrintOfNumeral(s);
  }

  lemma SpellsBoth(w: string, a: string, b: string)
    requires w != [] && Spells(w, 0, a) && Spells(w, |a|, b)
    ensures Spells(w, 0, a + b)
  {
    forall x | 0 <= x < |a + b|
      ensures (a + b)[x] == w[(0 + x) % |w|]
    {
      if x >= |a| {
        assert b[x - |a|] == w[(|a| + (x - |a|)) % |w|];
      }
    }
  }

  lemma SameWordSameKey(spec: SeedSpec, w: string, i: nat, j: nat)
    requires w != [] && Spells(w, 0, Extension(spec.repeat, i)) && Spells(w, 0, Extension(spec.repeat, j))
    requires |Extension(spec.repeat, i)| % |w| == 0 && |Extension(spec.repeat, j)| % |w| == 0
    requires FilledLength(|spec.kseed|, spec.ksize, |Extension(spec.repeat, i)|)
             == FilledLength(|spec.kseed|, spec.ksize, |Extension(spec.repeat, j)|)
    ensures Seeded(spec).KeyAt(i) == Seeded(spec).KeyAt(j)
  {
    var u, k := CopiesOf(spec.kseed, spec.ksize, spec.repeat, i);
    var v, m := CopiesOf(spec.kseed, spec.ksize, spec.repeat, j);
    assert k * |u| == m * |v|;
    hide Repeated, Spells;
    WordPowers(w, u, v, k, m);
  }

  lemma EqualKeysShowWord(spec: SeedSpec, i: uint32, j: uint32)
    requires i < spec.count && j < spec.count && i != j && Seeded(spec).KeyAt(i) == Seeded(spec).KeyAt(j)
    ensures ItemsCollide(spec)
  {
    if !AllDigits(spec.repeat) {
      SeededKeysInjective(spec.kseed, spec.ksize, spec.repeat, i, j);
    } else {
      var u, k := CopiesOf(spec.kseed, spec.ksize, spec.repeat, i);
      var v, m := CopiesOf(spec.kseed, spec.ksize, spec.repeat, j);
      FilledLengthIs(spec.kseed, spec.ksize, spec.repeat, i);
      FilledLengthIs(spec.kseed, spec.ksize, spec.repeat, j);
      RepeatedLength(u, k);
      RepeatedLength(v, m);
      hide Filled, FilledLength, Extension, Repeated, Target, ItemsCollide;
      if |u| < |v| {
        CommonWord(spec, i, j, k, m);
      } else if |v| < |u| {
        CommonWord(spec, j, i, m, k);
      } else {
        MulCancel(|u|, k, m);
        SameCopy(spec.repeat, i, j, k);
      }
    }
  }

  lemma CommonWord(spec: SeedSpec, i: uint32, j: uint32, k: nat, m: nat)
    requires i < spec.count && j < spec.count
    requires |Extension(spec.repeat, i)| < |Extension(spec.repeat, j)|
    requires k >= 1 && m >= 1 && Repeated(Extension(spec.repeat, i), k) == Repeated(Extension(spec.repeat, j), m)
    requires FilledLength(|spec.kseed|, spec.ksize, |Extension(spec.repeat, i)|)
             == FilledLength(|spec.kseed|, spec.ksize, |Extension(spec.repeat, j)|)
    ensures ItemsCollide(spec)
  {
    hide Repeated, FilledLength, ItemNumeral, Spells, Reading, Print;
    var u, v := Extension(spec.repeat, i), Extension(spec.repeat, j);
    NumeralOfItem(spec, i);
    NumeralOfItem(spec, j);
    PeriodIsShort(|u|, |v|);
    var w := WordOf(u, v, k, m);
    SpelledParts(w, spec.repeat, Print(i));
    SpelledParts(w, spec.repeat, Print(j));
    assert ItemsCollideAt(spec, w, |Print(i)|, |Print(j)|);
  }

  lemma NumeralOfItem(spec: SeedSpec, i: uint32)
    requires i < spec.count
    ensures ItemNumeral(spec, Print(i)) && 1 <= |Print(i)| <= 10
  {
    NumeralOfPrint(i);
    ValueOfPrint(i);
  }

  /** The word both are powers of. */
  lemma WordOf(u: string, v: string, k: nat, m: nat) returns (w: string)
    requires u != [] && v != [] && k >= 1 && m >= 1 && Repeated(u, k) == Repeated(v, m)
    ensures |w| == Gcd(|u|, |v|) && Spells(w, 0, u) && Spells(w, 0, v)
  {
    var p := Gcd(|u|, |v|);
    w := u[..p];
    hide Repeated;
    forall x: nat | x < |u|
      ensures u[x] == w[(0 + x) % |w|]
    {
      CommonPeriod(u, v, k, m, x);
      ModSmall(x, |u|);
      ModSmall(x % p, |u|);
    }
    forall x: nat | x < |v|
      ensures v[x] == w[(0 + x) % |w|]
    {
      CommonPeriod(u, v, k, m, x);
      ModSmall(x, |v|);
      ModSmall(x % p, |u|);
    }
  }

  lemma SpelledParts(w: string, a: string, b: string)
    requires w != [] && Spells(w, 0, a + b)
    ensures Spells(w, 0, a) && b == Reading(w, |a|, |b|)
  {
    forall x | 0 <= x < |a|
      ensures a[x] == w[(0 + x) % |w|]
    {
      assert (a + b)[x] == w[(0 + x) % |w|];
    }
    forall x | 0 <= x < |b|
      ensures b[x] == Reading(w, |a|, |b|)[x]
    {
      assert (a + b)[|a| + x] == w[(0 + (|a| + x)) % |w|];
    }
  }

  /* ---- numbered datasets ---- */

  /** The documents of N1QL, FTS and CBAS datasets have distinct keys exactly
      when no field is called "id"; otherwise they share one. */
  lemma RecordKeysDistinctIff(spec: RecordSpec)
    ensures (forall i: uint32, j: uint32 :: i != j ==> Records(spec).KeyAt(i) != Records(spec).KeyAt(j))
            <==> !(exists k :: 0 <= k < |spec.fields| && spec.fields[k].0 == "id")
  {
    var d := Records(spec);
    if k :| 0 <= k < |spec.fields| && spec.fields[k].0 == "id" {
      IdOverwritten(spec.fields, k, PrintInt(ToInt32(0)), PrintInt(ToInt32(1)));
      var i: uint32, j: uint32 := 0, 1;
      assert d.KeyAt(i) == d.KeyAt(j);
    } else {
      forall i: uint32, j: uint32 | i != j
        ensures d.KeyAt(i) != d.KeyAt(j)
      {
        RecordKeysDiffer(spec, i, j);
      }
    }
  }

  lemma RecordKeysDiffer(spec: RecordSpec, i: uint32, j: uint32)
    requires i != j && forall k :: 0 <= k < |spec.fields| ==> spec.fields[k].0 != "id"
    ensures Records(spec).KeyAt(i) != Records(spec).KeyAt(j)
  {
    hide IdOf, PrintInt;
    IdKept(spec.fields, PrintInt(ToInt32(i)));
    IdKept(spec.fields, PrintInt(ToInt32(j)));
    PrintIntInjective(ToInt32(i), ToInt32(j));
  }

  lemma {:induction false} IdOverwritten(fields: seq<(string, string)>, k: nat, a: string, b: string)
    requires k < |fields| && fields[k].0 == "id"
    ensures IdOf(fields, a) == IdOf(fields, b)
  {
    if Last(fields).0 != "id" {
      IdOverwritten(Front(fields), k, a, b);
    }
  }

  lemma PrintIntInjective(a: int, b: int)
    ensures PrintInt(a) == PrintInt(b) ==> a == b
  {
    if PrintInt(a) == PrintInt(b) {
      assert PrintInt(a)[0] == PrintInt(b)[0];
      if a < 0 {
        assert Print(-a) == PrintInt(a)[1..] && Print(-b) == PrintInt(b)[1..];
        PrintInjective(-a, -b);
      } else {
        PrintInjective(a, b);
      }
    }
  }
}
