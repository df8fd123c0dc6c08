/** Non-negative binary32 arithmetic with round-to-nearest, ties to even
    (IEEE 754-2008, sections 3.4 and 4.3.1), as far as floor((float)a / (float)b)
    needs it: overflow, infinities and negative numbers are not part of it. */
module Float32 {
  import opened Arith

  function Pow2(e: int): (p: real)
    ensures p > 0.0
    decreases if e < 0 then -e else e
  {
    if e == 0 then 1.0 else if e > 0 then 2.0 * Pow2(e - 1) else Pow2(e + 1) / 2.0
  }

  function Scaled(m: nat, e: int): real {
    m as real * Pow2(e)
  }

  /** The finite non-negative binary32 numbers. */
  ghost predicate Representable(x: real) {
    exists m: nat, e: int :: m < 0x100_0000 && -149 <= e <= 104 && x == Scaled(m, e)
  }

  function Distance(x: real, y: real): real {
    if x < y then y - x else x - y
  }

  /** y is a binary32 number nearest to x. */
  ghost predicate Nearest(x: real, y: real) {
    Representable(y) && forall z: real :: Representable(z) ==> Distance(x, y) <= Distance(x, z)
  }

  /** The exponent of the last place of x: the least e' >= e with x < 2^(24 + e'). */
  function LastPlace(x: real, e: int): (r: int)
    requires 0.0 <= x < Pow2(64) && -149 <= e <= 40
    ensures e <= r <= 40 && x < Pow2(24 + r)
    ensures r > e ==> x >= Pow2(23 + r)
    decreases 40 - e
  {
    hide Pow2;
    if x < Pow2(24 + e) then e
    else
      assert 24 + (e + 1) == 25 + e && 23 + (e + 1) == 24 + e;
      LastPlace(x, e + 1)
  }

  function RoundToEven(q: real): (n: nat)
    requires q >= 0.0
  {
    var f := q.Floor;
    var rest := q - f as real;
    if rest < 0.5 || (rest == 0.5 && f % 2 == 0) then f else f + 1
  }

  /** The binary32 number x rounds to. */
  function Round(x: real): real
    requires 0.0 <= x < Pow2(64)
  {
    var e := LastPlace(x, -149);
    Scaled(RoundToEven(Divided(x, e)), e)
  }

  function Divided(x: real, e: int): (q: real)
    requires x >= 0.0
    ensures q >= 0.0
  {
    x / Pow2(e)
  }

  lemma Pow2Next(e: int)
    ensures Pow2(e + 1) == 2.0 * Pow2(e)
  {
  }

  function IntPow2(k: nat): (p: nat)
    ensures p >= 1
  {
    if k == 0 then 1 else 2 * IntPow2(k - 1)
  }

  lemma {:induction false} Pow2Add(e: int, k: nat)
    ensures Pow2(e + k) == Scaled(IntPow2(k), e)
  {
    if k == 0 {
      ScaledOne(e);
    } else {
      assert IntPow2(k) == 2 * IntPow2(k - 1);
      hide Pow2, IntPow2, Scaled;
      Pow2Add(e, k - 1);
      Pow2Next(e + k - 1);
      ScaledTwice(IntPow2(k - 1), e);
    }
  }

  lemma ScaledOne(e: int)
    ensures Scaled(1, e) == Pow2(e)
  {
    hide Pow2;
  }

  lemma ScaledTwice(m: nat, e: int)
    ensures Scaled(2 * m, e) == 2.0 * Scaled(m, e)
  {
    hide Pow2;
    assert (2 * m) as real == 2.0 * m as real;
  }

  lemma RoundToEvenNearest(q: real, k: int)
    requires q >= 0.0
    ensures Distance(q, RoundToEven(q) as real) <= Distance(q, k as real)
  {
    var f := q.Floor;
    assert f as real <= q < (f + 1) as real;
    if k <= f {
      assert k as real <= f as real;
    } else {
      assert k as real >= (f + 1) as real;
    }
  }

  lemma DistanceScales(a: real, b: real, c: real, d: real, u: real)
    requires u > 0.0 && Distance(a, b) <= Distance(c, d)
    ensures Distance(a * u, b * u) <= Distance(c * u, d * u)
  {
    hide Distance;
    ScaleDistance(a, b, u);
    ScaleDistance(c, d, u);
    ScaleLe(Distance(a, b), Distance(c, d), u);
  }

  lemma ScaleLe(a: real, b: real, u: real)
    requires a <= b && u > 0.0
    ensures a * u <= b * u
  {
    assert (b - a) * u >= 0.0;
  }

  lemma ScaleDistance(a: real, b: real, u: real)
    requires u > 0.0
    ensures Distance(a * u, b * u) == Distance(a, b) * u
  {
    if a < b {
      ScaleLe(a, b, u);
      assert (b - a) * u == b * u - a * u;
    } else {
      ScaleLe(b, a, u);
      assert (a - b) * u == a * u - b * u;
    }
  }

  lemma Significand(z: real) returns (m: nat, f: int)
    requires Representable(z)
    ensures m < 0x100_0000 && -149 <= f <= 104 && z == Scaled(m, f)
  {
    m, f :| m < 0x100_0000 && -149 <= f <= 104 && z == Scaled(m, f);
  }

  /** A binary32 number is either a multiple of 2^e or at most 2^(23 + e). */
  lemma GridOrSmall(z: real, e: int) returns (k: nat)
    requires Representable(z)
    ensures z == Scaled(k, e) || z <= Pow2(23 + e)
  {
    var m, f := Significand(z);
    if f >= e {
      k := OnGrid(m, f, e);
    } else {
      k := 0;
      BelowPower(m, f);
      Pow2Monotone(f + 24, 23 + e);
    }
  }

  lemma BelowPower(m: nat, f: int)
    requires m <= 0x100_0000
    ensures Scaled(m, f) <= Pow2(f + 24)
  {
    LastPlaceScale(f);
    ScaleLe(m as real, 16777216.0, Pow2(f));
  }

  lemma OnGrid(m: nat, f: int, e: int) returns (k: nat)
    requires f >= e
    ensures Scaled(m, f) == Scaled(k, e)
  {
    hide Pow2, IntPow2;
    Pow2Add(e, f - e);
    assert e + (f - e) == f;
    k := m * IntPow2(f - e);
    ScaledProduct(m, IntPow2(f - e), Pow2(e));
  }

  lemma ScaledProduct(m: nat, p: nat, u: real)
    ensures m as real * (p as real * u) == (m * p) as real * u
  {
    assert (m * p) as real == m as real * p as real;
  }

  lemma IntPow2At24()
    ensures IntPow2(24) == 0x100_0000
  {
    assert IntPow2(4) == 16;
    assert IntPow2(8) == 256;
    assert IntPow2(12) == 4096;
    assert IntPow2(16) == 65536;
    assert IntPow2(20) == 1048576;
  }

  lemma {:induction false} Pow2Monotone(a: int, b: int)
    requires a <= b
    ensures Pow2(a) <= Pow2(b)
    decreases b - a
  {
    if a < b {
      Pow2Monotone(a, b - 1);
      Pow2Next(b - 1);
    }
  }

  lemma Quotient(x: real, u: real) returns (q: real)
    requires x >= 0.0 && u > 0.0
    ensures q == x / u && q >= 0.0 && x == q * u
  {
    q := x / u;
  }

  lemma LastPlaceScale(e: int)
    ensures Pow2(24 + e) == 16777216.0 * Pow2(e) && Pow2(23 + e) == 8388608.0 * Pow2(e)
  {
    Pow2Add(e, 24);
    Pow2Next(23 + e);
    IntPow2At24();
  }

  lemma LastPlaceQuotient(x: real, e: int) returns (q: real)
    requires 0.0 <= x < Pow2(24 + e)
    ensures 0.0 <= q < 16777216.0 && q == x / Pow2(e) && x == q * Pow2(e)
  {
    q := Quotient(x, Pow2(e));
    LastPlaceScale(e);
    if q >= 16777216.0 {
      ScaleLe(16777216.0, q, Pow2(e));
    }
  }

  /** Round returns a nearest binary32 number. */
  lemma RoundNearest(x: real)
    requires 0.0 <= x < Pow2(64)
    ensures Nearest(x, Round(x))
  {
    var e := LastPlace(x, -149);
    var q := LastPlaceQuotient(x, e);
    var n := RoundToEven(q);
    RoundRepresentable(n, e);
    forall z: real | Representable(z)
      ensures Distance(x, Scaled(n, e)) <= Distance(x, z)
    {
      NoNearer(x, e, q, z);
    }
  }

  lemma NoNearer(x: real, e: int, q: real, z: real)
    requires q >= 0.0 && x == q * Pow2(e) && Representable(z) && e >= -149
    requires e > -149 ==> x >= Pow2(23 + e)
    ensures Distance(x, Scaled(RoundToEven(q), e)) <= Distance(x, z)
  {
    hide Pow2, Distance, Representable, RoundToEven;
    var k := GridOrSmall(z, e);
    if z != Scaled(k, e) && e == -149 {
      k := BelowAll(z);
    }
    var y, u := Scaled(RoundToEven(q), e), Pow2(e);
    if z == Scaled(k, e) {
      GridNoNearer(x, y, z, q, k, u);
    } else {
      var w := Pow2(23 + e);
      LastPlaceScale(e);
      GridNoNearer(x, y, w, q, 8388608, u);
      Between(x, y, w, z);
    }
  }

  lemma Between(x: real, y: real, w: real, z: real)
    requires z <= w <= x && Distance(x, y) <= Distance(x, w)
    ensures Distance(x, y) <= Distance(x, z)
  {
  }

  lemma GridNoNearer(x: real, y: real, z: real, q: real, k: nat, u: real)
    requires q >= 0.0 && u > 0.0 && x == q * u && y == RoundToEven(q) as real * u && z == k as real * u
    ensures Distance(x, y) <= Distance(x, z)
  {
    RoundToEvenNearest(q, k);
    ScaledNoNearer(x, y, z, q, RoundToEven(q) as real, k as real, u);
  }

  lemma ScaledNoNearer(x: real, y: real, z: real, q: real, n: real, k: real, u: real)
    requires u > 0.0 && x == q * u && y == n * u && z == k * u
    requires Distance(q, n) <= Distance(q, k)
    ensures Distance(x, y) <= Distance(x, z)
  {
    hide Distance;
    DistanceScales(q, n, q, k, u);
  }

  lemma RoundedTo(x: real) returns (e: int, q: real, n: nat)
    requires 0.0 <= x < Pow2(64)
    ensures -149 <= e <= 40 && (e > -149 ==> x >= Pow2(23 + e))
    ensures q >= 0.0 && x == q * Pow2(e) && n == RoundToEven(q) && Round(x) == n as real * Pow2(e)
  {
    hide Pow2, RoundToEven;
    e := LastPlace(x, -149);
    q := LastPlaceQuotient(x, e);
    n := RoundToEven(q);
  }

  /** Where two binary32 numbers are nearest, Round takes the one with an even last
      place: it is an even multiple of their difference. */
  lemma TiesToEven(x: real, z: real) returns (k: nat)
    requires 0.0 <= x < Pow2(64) && Nearest(x, z) && z != Round(x)
    ensures Round(x) == (2 * k) as real * Distance(Round(x), z)
  {
    hide Pow2, Round, Distance, Representable, Scaled;
    var e, q, n := RoundedTo(x);
    RoundNearest(x);
    assert Distance(x, Round(x)) == Distance(x, z);
    var j := NearestOnGrid(x, e, z);
    ScaledIs(j, e);
    hide *;
    TieInUnits(x, Round(x), z, q, n, j, Pow2(e));
    k := n / 2;
  }

  lemma ScaledIs(m: nat, e: int)
    ensures Scaled(m, e) == m as real * Pow2(e)
  {
    hide Pow2;
  }

  lemma TieInUnits(x: real, y: real, z: real, q: real, n: nat, j: nat, u: real)
    requires q >= 0.0 && u > 0.0 && x == q * u && y == n as real * u && z == j as real * u
    requires n == RoundToEven(q) && Distance(x, y) == Distance(x, z) && y != z
    ensures n % 2 == 0 && Distance(y, z) == u
  {
    hide Distance, RoundToEven;
    TieScales(x, y, z, q, n as real, j as real, u);
    HalfWay(q, j);
    UnitDistance(y, z, n as real, j as real, u);
  }

  lemma UnitDistance(y: real, z: real, a: real, b: real, u: real)
    requires u > 0.0 && y == a * u && z == b * u && Distance(a, b) == 1.0
    ensures Distance(y, z) == u
  {
    ScaleDistance(a, b, u);
    hide Distance;
    var d := Distance(a, b);
    assert d * u == u;
  }

  lemma NearestOnGrid(x: real, e: int, z: real) returns (j: nat)
    requires Nearest(x, z) && -149 <= e <= 40
    requires e > -149 ==> x >= Pow2(23 + e)
    ensures z == Scaled(j, e)
  {
    hide Pow2;
    j := GridOrSmall(z, e);
    if z != Scaled(j, e) {
      if e == -149 {
        j := BelowAll(z);
      } else {
        j := 8388608;
        LastPlaceScale(e);
        RoundRepresentable(j, e);
        assert Distance(x, z) <= Distance(x, Scaled(j, e));
      }
    }
  }

  lemma TieScales(x: real, y: real, z: real, q: real, n: real, j: real, u: real)
    requires u > 0.0 && x == q * u && y == n * u && z == j * u && Distance(x, y) == Distance(x, z)
    ensures Distance(q, n) == Distance(q, j)
  {
    hide Distance;
    ScaleDistance(q, n, u);
    ScaleDistance(q, j, u);
    SameProduct(Distance(q, n), Distance(q, j), u);
  }

  lemma SameProduct(a: real, b: real, u: real)
    requires u > 0.0 && a * u == b * u
    ensures a == b
  {
    assert (a - b) * u == 0.0;
  }

  /** Between two integers at the same distance RoundToEven takes the even one. */
  lemma HalfWay(q: real, j: nat)
    requires q >= 0.0 && RoundToEven(q) != j && Distance(q, RoundToEven(q) as real) == Distance(q, j as real)
    ensures RoundToEven(q) % 2 == 0 && Distance(RoundToEven(q) as real, j as real) == 1.0
  {
    var f := q.Floor;
    RoundToEvenNearest(q, f);
    RoundToEvenNearest(q, f + 1);
    assert j == f || j == f + 1;
  }

  lemma RoundRepresentable(n: nat, e: int)
    requires n <= 0x100_0000 && -149 <= e <= 40
    ensures Representable(Scaled(n, e))
  {
    if n == 0x100_0000 {
      Pow2Next(e);
      assert Scaled(n, e) == Scaled(0x80_0000, e + 1);
    }
  }

  /** Every binary32 number is a multiple of the least subnormal. */
  lemma BelowAll(z: real) returns (k: nat)
    requires Representable(z)
    ensures z == Scaled(k, -149)
  {
    var m, f := Significand(z);
    k := OnGrid(m, f, -149);
  }

  /** Integers up to 2^24 are binary32 numbers. */
  lemma SmallRepresentable(n: nat)
    requires n <= 0x100_0000
    ensures Representable(n as real)
  {
    if n == 0x100_0000 {
      assert n as real == Scaled(0x80_0000, 1);
    } else {
      assert n as real == Scaled(n, 0);
    }
  }

  lemma NearestToRepresentable(x: real, y: real)
    requires Nearest(x, y) && Representable(x)
    ensures x == y
  {
    assert Distance(x, y) <= Distance(x, x);
  }

  lemma NearestAtLeast(x: real, y: real, z: real)
    requires Nearest(x, y) && Representable(z) && z <= x
    ensures z <= y
  {
    assert Distance(x, y) <= Distance(x, z);
  }

  /* ---- floor of a rounded quotient ---- */

  /** Rounding does not reach f + 1 from more than half the distance u of the
      binary32 number before it. */
  lemma FloorNearest(x: real, y: real, f: nat, u: real)
    requires Nearest(x, y) && Representable(f as real) && Representable((f + 1) as real - u)
    requires 0.0 < u && f as real <= x && u < 2.0 * ((f + 1) as real - x)
    ensures y.Floor == f
  {
    NearestAtLeast(x, y, f as real);
    var z := (f + 1) as real - u;
    assert Distance(x, y) <= Distance(x, z) < (f + 1) as real - x;
  }

  /** The power of two at or below k. */
  lemma {:induction false} PowerBelow(k: nat, n: nat) returns (e: nat)
    requires 1 <= k < IntPow2(n)
    ensures e < n && IntPow2(e) <= k < 2 * IntPow2(e)
  {
    if k < IntPow2(n - 1) {
      e := PowerBelow(k, n - 1);
    } else {
      e := n - 1;
    }
  }

  /** The binary32 number before k + 1 is u below it, where 2^24 * u is no more
      than 2 * k, or than 1 for k = 0. */
  lemma BelowNext(k: nat) returns (u: real)
    requires k < 0x100_0000
    ensures u > 0.0 && Representable((k + 1) as real - u)
    ensures 16777216.0 * u <= if k == 0 then 1.0 else (2 * k) as real
  {
    var e: int := -1;
    if k >= 1 {
      IntPow2At24();
      e := PowerBelow(k, 24);
    }
    u := Pow2(e - 23);
    var power := PowerOfLastPlace(k, e);
    Predecessor(k, e, power, u);
  }

  /** 2^(e + 1) as an integer. */
  lemma PowerOfLastPlace(k: nat, e: int) returns (power: nat)
    requires if k == 0 then e == -1 else 0 <= e && IntPow2(e) <= k < 2 * IntPow2(e)
    ensures k + 1 <= power && power <= (if k == 0 then 1 else 2 * k)
    ensures power as real == 16777216.0 * Pow2(e - 23)
  {
    LastPlaceScale(e - 23);
    assert 24 + (e - 23) == e + 1;
    power := if k == 0 then 1 else 2 * IntPow2(e);
    PowerIs(e + 1);
    assert power == IntPow2(e + 1);
  }

  lemma PowerIs(n: nat)
    ensures Pow2(n) == IntPow2(n) as real
  {
    Pow2Add(0, n);
    assert 0 + n == n && Pow2(0) == 1.0;
  }

  lemma Predecessor(k: nat, e: int, power: nat, u: real)
    requires -1 <= e <= 23 && u == Pow2(e - 23)
    requires k + 1 <= power && power as real == 16777216.0 * u
    ensures Representable((k + 1) as real - u)
  {
    var s := WholeUnits(e);
    hide *;
    Units(k + 1, s, u, power);
    IsRepresentable((k + 1) * s - 1, e - 23);
  }

  lemma WholeUnits(e: int) returns (s: nat)
    requires e <= 23
    ensures s as real * Pow2(e - 23) == 1.0
  {
    s := IntPow2(23 - e);
    assert e - 23 + (23 - e) == 0 && Pow2(0) == 1.0;
    hide Pow2, IntPow2;
    Pow2Add(e - 23, 23 - e);
  }

  lemma IsRepresentable(m: nat, e: int)
    requires m < 0x100_0000 && -149 <= e <= 104
    ensures Representable(m as real * Pow2(e))
  {
    assert Scaled(m, e) == m as real * Pow2(e);
  }

  /** m is m * s units of size u = 1 / s, at most 2^24 of them. */
  lemma Units(m: nat, s: nat, u: real, power: nat)
    requires m >= 1 && u > 0.0 && s as real * u == 1.0 && m <= power && power as real == 16777216.0 * u
    ensures 1 <= m * s <= 0x100_0000 && (m * s - 1) as real * u == m as real - u
  {
    assert (m * s) as real == m as real * s as real;
    ScaledProduct(m, s, u);
    assert (m * s) as real * u == m as real;
    if m * s > 0x100_0000 {
      ScaleLess(16777216.0, (m * s) as real, u);
    }
    if m * s == 0 {
      assert false;
    }
    assert (m * s - 1) as real * u == (m * s) as real * u - u;
  }

  lemma ScaleLess(a: real, b: real, u: real)
    requires a < b && u > 0.0
    ensures a * u < b * u
  {
    assert (b - a) * u > 0.0;
  }

  lemma DivideWithRest(a: nat, b: nat) returns (q: nat, r: nat)
    requires b >= 1
    ensures q == a / b && r == a % b && q <= a && r < b && a == q * b + r
    ensures a as real == q as real * b as real + r as real
  {
    q, r := a / b, a % b;
    assert a == q * b + r;
    assert (q * b) as real == q as real * b as real;
  }

  /** A quotient with a rest is at least 1 / b below the next integer. */
  lemma RestGap(a: real, b: real, k: real, r: real, x: real)
    requires b >= 1.0 && 1.0 <= r <= b - 1.0 && a == k * b + r && x * b == a
    ensures k <= x && (k + 1.0 - x) * b >= 1.0
  {
    assert (k + 1.0 - x) * b == k * b + b - x * b;
    if x < k {
      ScaleLess(x, k, b);
    }
  }

  lemma Negative(d: real, b: real)
    requires b > 0.0 && d * b < 0.0
    ensures d < 0.0
  {
    if d >= 0.0 {
      NonNegative(d, b);
    }
  }

  lemma NonNegative(d: real, b: real)
    requires d >= 0.0 && b >= 0.0
    ensures d * b >= 0.0
  {
  }

  predicate AtLeastInverse(gap: real, b: real) {
    gap * b >= 1.0
  }

  predicate BelowTwiceInverse(u: real, b: real) {
    u * b < 2.0
  }

  /** A gap of at least 1 / b is more than half of a distance below 2 / b. */
  lemma MoreThanHalf(gap: real, b: real, u: real)
    requires b >= 1.0 && AtLeastInverse(gap, b) && BelowTwiceInverse(u, b)
    ensures u < 2.0 * gap
  {
    var p, q, d := gap * b, u * b, u - 2.0 * gap;
    assert d * b == q - 2.0 * p;
    Negative(d, b);
  }

  lemma UnitTimesDivisor(w: real, c: real, u: real, p: real)
    requires 16777216.0 * u <= w && p == w * c && p < 33554432.0 && c >= 1.0
    ensures BelowTwiceInverse(u, c)
  {
    var d, q := w - 16777216.0 * u, u * c;
    assert d * c == p - 16777216.0 * q;
    NonNegative(d, c);
  }

  lemma UnitTimesInt(m: nat, b: nat, u: real)
    requires 16777216.0 * u <= m as real && m * b < 0x200_0000 && b >= 1
    ensures BelowTwiceInverse(u, b as real)
  {
    hide BelowTwiceInverse;
    var p := RealProduct(m, b);
    UnitTimesDivisor(m as real, b as real, u, p);
  }

  lemma RealProduct(m: nat, b: nat) returns (p: real)
    requires m * b < 0x200_0000
    ensures p == m as real * b as real && p < 33554432.0
  {
    p := (m * b) as real;
  }

  /** The distance u of the number before k + 1, in comparison with 1 / b. */
  lemma GapUnit(a: nat, b: nat, k: nat) returns (u: real)
    requires a <= 0x100_0000 && 1 <= b <= 0x100_0000 && k == a / b && a % b >= 1
    ensures u > 0.0 && k < 0x100_0000 && Representable((k + 1) as real - u)
    ensures BelowTwiceInverse(u, b as real)
  {
    hide Representable, BelowTwiceInverse;
    var m := BelowQuotient(a, b, k);
    u := BelowNext(k);
    UnitTimesInt(m, b, u);
  }

  lemma BelowQuotient(a: nat, b: nat, k: nat) returns (m: nat)
    requires a <= 0x100_0000 && 1 <= b <= 0x100_0000 && k == a / b && a % b >= 1
    ensures k < 0x100_0000 && m == (if k == 0 then 1 else 2 * k) && m * b < 0x200_0000
  {
    var q, r := DivMod(a, b);
    MulLe(1, b, k);
    assert b * k == k * b;
    m := if k == 0 then 1 else 2 * k;
    assert (2 * k) * b == 2 * (k * b);
  }

  lemma QuotientGap(a: nat, b: nat, k: nat, x: real)
    requires b >= 1 && k == a / b && a % b >= 1 && x == a as real / b as real
    ensures k as real <= x && AtLeastInverse(k as real + 1.0 - x, b as real)
  {
    var y := Quotient(a as real, b as real);
    var q, r := DivideWithRest(a, b);
    RestGap(a as real, b as real, q as real, r as real, y);
  }

  lemma QuotientWhole(a: nat, b: nat, k: nat, x: real)
    requires b >= 1 && k == a / b && a % b == 0 && x == a as real / b as real
    ensures x == k as real
  {
    var y := Quotient(a as real, b as real);
    var q, r := DivideWithRest(a, b);
    WholeQuotient(y, q as real, b as real);
  }

  /** Both operands are binary32 numbers. */
  lemma SmallDivisor(a: nat, b: nat, y: real)
    requires a <= 0x100_0000 && 1 <= b <= 0x100_0000 && Nearest(a as real / b as real, y)
    ensures y.Floor == a / b
  {
    hide Nearest, Representable, AtLeastInverse, BelowTwiceInverse;
    var x, k := a as real / b as real, a / b;
    if a % b == 0 {
      QuotientWhole(a, b, k, x);
      ModLe(a, b);
      SmallRepresentable(k);
      NearestToRepresentable(x, y);
    } else {
      QuotientGap(a, b, k, x);
      var u := GapUnit(a, b, k);
      MoreThanHalf(k as real + 1.0 - x, b as real, u);
      SmallRepresentable(k);
      assert (k + 1) as real == k as real + 1.0;
      FloorNearest(x, y, k, u);
    }
  }

  lemma ModLe(a: nat, b: nat)
    requires b >= 1
    ensures a / b <= a
  {
    var q, r := DivideWithRest(a, b);
  }

  lemma WholeQuotient(x: real, k: real, b: real)
    requires b > 0.0 && x * b == k * b
    ensures x == k
  {
    if x < k {
      ScaleLess(x, k, b);
    } else if k < x {
      ScaleLess(k, x, b);
    }
  }

  /** The divisor is beyond 2^24 and the quotient is below 1. */
  lemma LargeDivisor(a: nat, b: nat, fb: real, y: real)
    requires a <= 0x100_0000 && b > 0x100_0000 && !(a == 0x100_0000 && b == 0x100_0001)
    requires Nearest(b as real, fb)
    requires fb > 0.0 ==> Nearest(a as real / fb, y)
    ensures fb > 0.0 && y.Floor == 0 == a / b
  {
    hide Nearest, Representable;
    DivModUnique(a, b, 0, a);
    LeastConverted(a, b, fb);
    var x := Quotient(a as real, fb);
    var u := BelowNext(0);
    FarBelow(a as real, fb, x, u);
    SmallRepresentable(0);
    FloorNearest(x, y, 0, u);
  }

  lemma LeastConverted(a: nat, b: nat, fb: real)
    requires a <= 0x100_0000 && b > 0x100_0000 && !(a == 0x100_0000 && b == 0x100_0001)
    requires Nearest(b as real, fb)
    ensures fb >= 16777216.0 && a as real + 1.0 <= fb
  {
    hide Nearest, Representable;
    SmallRepresentable(0x100_0000);
    NearestAtLeast(b as real, fb, 16777216.0);
    if a == 0x100_0000 {
      NextRepresentable();
      NearestAtLeast(b as real, fb, 16777218.0);
    }
  }

  lemma NextRepresentable()
    ensures Representable(16777218.0)
  {
    assert Scaled(0x80_0001, 1) == 16777218.0;
  }

  lemma FarBelow(a: real, fb: real, x: real, u: real)
    requires 0.0 <= a <= 16777216.0 && fb >= 16777216.0 && a + 1.0 <= fb && x * fb == a
    requires 16777216.0 * u <= 1.0 && u > 0.0
    ensures u < 2.0 * (1.0 - x)
  {
    var d, e := u - 2.0 * (1.0 - x), 1.0 - 16777216.0 * u;
    assert d * fb == u * fb - 2.0 * fb + 2.0 * a;
    assert e * fb == fb - 16777216.0 * (u * fb);
    NonNegative(e, fb);
    Negative(d, fb);
  }

  /** floor of a binary32 quotient of integers up to 2^24 by integers is integer
      division, for any nearest rounding of both conversions and of the division,
      unless 2^24 is divided by 2^24 + 1. */
  lemma FloatFloorDivision(a: nat, b: nat, fa: real, fb: real, quotient: real)
    requires a <= 0x100_0000 && b >= 1 && !(a == 0x100_0000 && b == 0x100_0001)
    requires Nearest(a as real, fa) && Nearest(b as real, fb)
    requires fb > 0.0 ==> Nearest(fa / fb, quotient)
    ensures fb > 0.0 && quotient.Floor == a / b
  {
    hide Nearest, Representable;
    SmallRepresentable(a);
    NearestToRepresentable(a as real, fa);
    if b <= 0x100_0000 {
      SmallRepresentable(b);
      NearestToRepresentable(b as real, fb);
      SmallDivisor(a, b, quotient);
    } else {
      LargeDivisor(a, b, fb, quotient);
    }
  }

  lemma Below2To64(x: real)
    requires x <= 4294967296.0
    ensures x < Pow2(64)
  {
    Pow2Monotone(33, 64);
    Pow2Add(9, 24);
    Pow2At9();
    IntPow2At24();
    hide Pow2, IntPow2;
  }

  /** Conversion to float, and the rounding of a float operation. */
  function ToFloat(x: real): real
    requires 0.0 <= x <= 4294967296.0
  {
    Below2To64(x);
    Round(x)
  }

  lemma ToFloatNearest(x: real)
    requires 0.0 <= x <= 4294967296.0
    ensures Nearest(x, ToFloat(x)) && 0.0 <= ToFloat(x) <= 4294967296.0
  {
    hide Round, Scaled;
    Below2To64(x);
    RoundNearest(x);
    Representable2To32();
    NearestInRange(x, ToFloat(x));
  }

  lemma Representable2To32()
    ensures Representable(4294967296.0)
  {
    Pow2At9();
    assert Scaled(0x80_0000, 9) == 4294967296.0;
  }

  lemma Pow2At9()
    ensures Pow2(9) == 512.0
  {
    assert Pow2(5) == 32.0;
  }

  lemma NearestInRange(x: real, y: real)
    requires 0.0 <= x <= 4294967296.0 && Nearest(x, y) && Representable(4294967296.0)
    ensures 0.0 <= y <= 4294967296.0
  {
    RepresentableNonNegative(y);
    assert Distance(x, y) <= Distance(x, 4294967296.0);
  }

  lemma RepresentableNonNegative(y: real)
    requires Representable(y)
    ensures y >= 0.0
  {
    var m, f := Significand(y);
    ScaleLe(0.0, m as real, Pow2(f));
  }

  /** Every quotient of converted 32-bit integers is in range. */
  lemma QuotientInRange(a: nat, b: nat)
    requires a <= 0x1_0000_0000 && 1 <= b < 0x1_0000_0000
    ensures ToFloat(b as real) >= 1.0
    ensures 0.0 <= ToFloat(a as real) / ToFloat(b as real) <= 4294967296.0
  {
    hide ToFloat, Nearest;
    ToFloatNearest(a as real);
    ToFloatNearest(b as real);
    SmallRepresentable(1);
    NearestAtLeast(b as real, ToFloat(b as real), 1.0);
    QuotientAtMost(ToFloat(a as real), ToFloat(b as real));
  }

  lemma QuotientAtMost(x: real, u: real)
    requires x >= 0.0 && u >= 1.0
    ensures 0.0 <= x / u <= x
  {
    var q := Quotient(x, u);
    assert q * (u - 1.0) >= 0.0;
  }

  /** floor((float)a / (float)b), every step rounded to binary32. */
  function FloorQuotient(a: nat, b: nat): nat
    requires a <= 0x1_0000_0000 && 1 <= b < 0x1_0000_0000
  {
    QuotientInRange(a, b);
    ToFloatNearest(ToFloat(a as real) / ToFloat(b as real));
    ToFloat(ToFloat(a as real) / ToFloat(b as real)).Floor
  }

  /** For numerators up to 2^24 it is the integer quotient, except for one pair of
      operands: 2^24 + 1 is converted to 2^24. */
  lemma FloorQuotientExactIff(a: nat, b: nat)
    requires a <= 0x100_0000 && 1 <= b < 0x1_0000_0000
    ensures FloorQuotient(a, b) == a / b <==> !(a == 0x100_0000 && b == 0x100_0001)
  {
    if a == 0x100_0000 && b == 0x100_0001 {
      DivModUnique(a, b, 0, a);
      TieQuotient(a, b);
    } else {
      FloorQuotientExact(a, b);
    }
  }

  lemma FloorQuotientExact(a: nat, b: nat)
    requires a <= 0x100_0000 && 1 <= b < 0x1_0000_0000 && !(a == 0x100_0000 && b == 0x100_0001)
    ensures FloorQuotient(a, b) == a / b
  {
    hide ToFloat, Nearest;
    QuotientInRange(a, b);
    var fa, fb := ToFloat(a as real), ToFloat(b as real);
    ToFloatNearest(a as real);
    ToFloatNearest(b as real);
    ToFloatNearest(fa / fb);
    FloatFloorDivision(a, b, fa, fb, ToFloat(fa / fb));
  }

  lemma TieQuotient(a: nat, b: nat)
    requires a == 0x100_0000 && b == 0x100_0001
    ensures FloorQuotient(a, b) == 1
  {
    hide ToFloat, Nearest, Representable;
    QuotientInRange(a, b);
    TieToEven();
    ToFloatNearest(16777216.0);
    SmallRepresentable(0x100_0000);
    NearestToRepresentable(16777216.0, ToFloat(16777216.0));
    ConvertedOne();
    assert a as real == 16777216.0 && b as real == 16777217.0;
    assert ToFloat(a as real) / ToFloat(b as real) == 1.0;
  }

  /** 2^24 + 1 is halfway between its neighbours. */
  lemma TieToEven()
    ensures ToFloat(16777217.0) == 16777216.0
  {
    Below2To64(16777217.0);
    TieLastPlace();
    assert Pow2(1) == 2.0;
    assert Divided(16777217.0, 1) == 8388608.5;
    assert RoundToEven(8388608.5) == 8388608;
    assert Scaled(8388608, 1) == 16777216.0;
  }

  lemma TieLastPlace()
    requires 16777217.0 < Pow2(64)
    ensures LastPlace(16777217.0, -149) == 1
  {
    assert Pow2(0) == 1.0;
    hide *;
    LastPlaceScale(0);
    Pow2Next(24);
    var x: real := 16777217.0;
    var e := LastPlace(x, -149);
    if e <= 0 {
      Pow2Monotone(24 + e, 24);
    } else if e >= 2 {
      Pow2Monotone(25, 23 + e);
    }
  }

  /** All numerators up to m are divided exactly by every unsigned int. */
  ghost predicate ExactUpTo(m: nat) {
    forall a: nat, b: nat :: a <= m && a <= 0x1_0000_0000 && 1 <= b < 0x1_0000_0000 ==> FloorQuotient(a, b) == a / b
  }

  /** The limit of the float division is 2^24 - 1. */
  lemma ExactUpToIff(m: nat)
    ensures ExactUpTo(m) <==> m < 0x100_0000
  {
    if m < 0x100_0000 {
      forall a: nat, b: nat | a <= m && 1 <= b < 0x1_0000_0000
        ensures FloorQuotient(a, b) == a / b
      {
        FloorQuotientExactIff(a, b);
      }
    } else {
      FloorQuotientExactIff(0x100_0000, 0x100_0001);
    }
  }

  /** From 2^24 on no binary32 number is odd, so even a division by 1 fails. */
  lemma FloorQuotientInexact()
    ensures FloorQuotient(0x100_0001, 1) != 0x100_0001
  {
    hide ToFloat, Nearest, Representable, FloorQuotient;
    FloorQuotientByOne(0x100_0001, 1);
    ToFloatNearest(16777217.0);
    NearestIsRepresentable(16777217.0, ToFloat(16777217.0));
    NotOdd(ToFloat(16777217.0));
  }

  lemma FloorQuotientByOne(a: nat, b: nat)
    requires a <= 0x1_0000_0000 && b == 1
    ensures FloorQuotient(a, b) == ToFloat(a as real).Floor
  {
    hide ToFloat, Nearest, Representable;
    QuotientInRange(a, b);
    ToFloatNearest(a as real);
    var fa := ToFloat(a as real);
    ConvertedOne();
    assert fa / ToFloat(b as real) == fa;
    ToFloatNearest(fa);
    NearestIsRepresentable(a as real, fa);
    NearestToRepresentable(fa, ToFloat(fa));
  }

  lemma ConvertedOne()
    ensures ToFloat(1.0) == 1.0
  {
    ToFloatNearest(1.0);
    SmallRepresentable(1);
    NearestToRepresentable(1.0, ToFloat(1.0));
  }

  lemma NearestIsRepresentable(x: real, y: real)
    requires Nearest(x, y)
    ensures Representable(y)
  {
  }

  lemma NotOdd(y: real)
    requires Representable(y)
    ensures y.Floor != 0x100_0001
  {
    var k := GridOrSmall(y, 1);
    assert Pow2(0) == 1.0;
    LastPlaceScale(0);
    Pow2Next(0);
    hide Pow2;
    assert y == Scaled(k, 1) ==> y == (2 * k) as real;
  }
}
