/** Multiplication and division facts the solver needs one at a time. */
module Arith {

  lemma MulLe(a: int, b: int, c: nat)
    requires a <= b
    ensures a * c <= b * c
  {
    assert (b - a) * c >= 0;
  }

  lemma MulLess(a: int, b: int, c: nat)
    requires a < b && c > 0
    ensures a * c < b * c
  {
    MulLe(a + 1, b, c);
  }

  lemma MulCancel(k: nat, x: nat, y: nat)
    requires k >= 1 && k * x == k * y
    ensures x == y
  {
    assert x * k == k * x && y * k == k * y;
    if x < y {
      MulLess(x, y, k);
    } else if y < x {
      MulLess(y, x, k);
    }
  }

  lemma DivModUnique(a: nat, m: nat, q: nat, r: nat)
    requires r < m && a == q * m + r
    ensures a / m == q && a % m == r
  {
    var d := a / m;
    var e := a % m;
    assert a == d * m + e;
    if d < q {
      MulLe(d + 1, q, m);
    } else if q < d {
      MulLe(q + 1, d, m);
    }
  }

  lemma ModSmall(x: nat, m: nat)
    requires x < m
    ensures x % m == x
  {
  }

  lemma ModStep(n: nat, m: nat)
    requires m > 0
    ensures (n + 1) % m == if n % m + 1 >= m then 0 else n % m + 1
  {
    var q, r := n / m, n % m;
    assert n == q * m + r;
    if r + 1 < m {
      DivModUnique(n + 1, m, q, r + 1);
    } else {
      assert (q + 1) * m == q * m + m;
      DivModUnique(n + 1, m, q + 1, 0);
    }
  }

  lemma MulDiv(q: int, m: nat)
    requires m > 0
    ensures q * m / m == q
  {
    var d, r := q * m / m, q * m % m;
    assert q * m == d * m + r;
    if d < q {
      MulLe(d + 1, q, m);
    } else if q < d {
      MulLe(q + 1, d, m);
    }
  }

  lemma ModMinus(x: nat, m: nat)
    requires 0 < m <= x
    ensures (x - m) % m == x % m
  {
    var q, r := x / m, x % m;
    assert x == q * m + r;
    assert (q - 1) * m == q * m - m;
    if q == 0 {
      assert false;
    }
    DivModUnique(x - m, m, q - 1, r);
  }

  /** Reducing by a multiple of a first does not change the remainder by a. */
  lemma ModMod(x: nat, k: nat, a: nat)
    requires k >= 1 && a >= 1
    ensures k * a >= 1
    ensures x % (k * a) % a == x % a
  {
    MulLe(1, k, a);
    var q, r := DivMod(x, k * a);
    var s, t := DivMod(r, a);
    Regroup(q, k, a, s);
    DivModUnique(x, a, q * k + s, t);
  }

  lemma DivMod(x: nat, m: nat) returns (q: nat, r: nat)
    requires m >= 1
    ensures q == x / m && r == x % m && x == q * m + r
  {
    q, r := x / m, x % m;
  }

  lemma Regroup(q: int, k: int, a: int, s: int)
    ensures q * (k * a) + s * a == (q * k + s) * a
  {
    assert q * (k * a) == (q * k) * a;
    assert (q * k + s) * a == (q * k) * a + s * a;
  }

  lemma MulMod(q: nat, m: nat)
    requires m > 0
    ensures q * m % m == 0
  {
    DivModUnique(q * m, m, q, 0);
  }

  /** The greatest common divisor, by subtraction. */
  function Gcd(a: nat, b: nat): (g: nat)
    requires a >= 1 && b >= 1
    ensures 1 <= g <= a && g <= b
    decreases a + b
  {
    if a == b then a else if a < b then Gcd(a, b - a) else Gcd(a - b, b)
  }

  lemma {:induction false} GcdDivides(a: nat, b: nat) returns (x: nat, y: nat)
    requires a >= 1 && b >= 1
    ensures a == x * Gcd(a, b) && b == y * Gcd(a, b)
    decreases a + b
  {
    var g := Gcd(a, b);
    if a == b {
      x, y := 1, 1;
    } else if a < b {
      x, y := GcdDivides(a, b - a);
      assert (x + y) * g == x * g + y * g;
      y := x + y;
    } else {
      x, y := GcdDivides(a - b, b);
      assert (x + y) * g == x * g + y * g;
      x := x + y;
    }
  }

  /** A common multiple k * a == m * b is a multiple of the least one: k is a
      multiple of b / gcd and m of a / gcd. */
  lemma {:induction false} CommonMultiple(a: nat, b: nat, k: nat, m: nat) returns (t: nat)
    requires a >= 1 && b >= 1 && k * a == m * b
    ensures k * Gcd(a, b) == t * b && m * Gcd(a, b) == t * a
    decreases a + b
  {
    if a == b {
      MulCancel(a, k, m);
      t := k;
    } else if a < b {
      Subtract(a, b, k, m);
      t := CommonMultiple(a, b - a, k - m, m);
      AddBack(k, m, Gcd(a, b), t, a, b);
    } else {
      Subtract(b, a, m, k);
      t := CommonMultiple(a - b, b, k, m - k);
      AddBack(m, k, Gcd(a, b), t, b, a);
    }
  }

  lemma AddBack(k: int, m: int, g: int, t: int, a: int, b: int)
    requires (k - m) * g == t * (b - a) && m * g == t * a
    ensures k * g == t * b
  {
    assert (k - m) * g == k * g - m * g;
    assert t * (b - a) == t * b - t * a;
  }

  lemma Subtract(a: nat, b: nat, k: nat, m: nat)
    requires 1 <= a < b && k * a == m * b
    ensures k >= m && (k - m) * a == m * (b - a)
  {
    if k < m {
      MulLess(k, m, a);
      MulLe(a, b, m);
    }
    assert (k - m) * a == k * a - m * a;
    assert m * (b - a) == m * b - m * a;
  }
}
