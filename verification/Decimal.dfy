/** Decimal numerals: what sprintf("%u") and std::to_string print and what
    std::stoi reads back. */
module Decimal {
  import opened Arith

  predicate IsDigit(c: char) {
    '0' <= c <= '9'
  }

  predicate AllDigits(s: string) {
    forall k :: 0 <= k < |s| ==> IsDigit(s[k])
  }

  function DigitValue(c: char): (d: nat)
    requires IsDigit(c)
    ensures d < 10
  {
    c as int - '0' as int
  }

  function DigitChar(d: nat): (c: char)
    requires d < 10
    ensures IsDigit(c) && DigitValue(c) == d
  {
    ('0' as int + d) as char
  }

  /** The numeral of n, without leading zeros. */
  function Print(n: nat): (s: string)
    ensures s != [] && AllDigits(s)
  {
    if n < 10 then [DigitChar(n)] else Print(n / 10) + [DigitChar(n % 10)]
  }

  /** The number a digit string denotes; leading zeros are allowed. */
  function Value(s: string): nat
    requires AllDigits(s)
  {
    if s == [] then 0 else 10 * Value(s[..|s| - 1]) + DigitValue(s[|s| - 1])
  }

  function Pow10(n: nat): (p: nat)
    ensures p >= 1
  {
    if n == 0 then 1 else 10 * Pow10(n - 1)
  }

  lemma {:induction false} ValueBound(s: string, n: nat)
    requires AllDigits(s) && |s| <= n
    ensures Value(s) < Pow10(n)
  {
    if s != [] {
      ValueBound(s[..|s| - 1], n - 1);
    }
  }

  /** The digits of s in order; std::regex_replace of \D by nothing. */
  function KeepDigits(s: string): (d: string)
    ensures AllDigits(d)
  {
    if s == [] then []
    else KeepDigits(s[..|s| - 1]) + (if IsDigit(s[|s| - 1]) then [s[|s| - 1]] else [])
  }

  /** How many characters of s are not digits. */
  function NonDigits(s: string): nat {
    if s == [] then 0 else NonDigits(s[..|s| - 1]) + (if IsDigit(s[|s| - 1]) then 0 else 1)
  }

  lemma {:induction false} ValueOfPrint(n: nat)
    ensures Value(Print(n)) == n
  {
    if n >= 10 {
      ValueOfPrint(n / 10);
      assert Print(n)[..|Print(n)| - 1] == Print(n / 10);
    } else {
      assert Print(n)[..0] == [];
    }
  }

  lemma PrintInjective(m: nat, n: nat)
    requires Print(m) == Print(n)
    ensures m == n
  {
    ValueOfPrint(m);
    ValueOfPrint(n);
  }

  lemma {:induction false} ValuePositive(s: string)
    requires AllDigits(s) && s != [] && s[0] != '0'
    ensures Value(s) > 0
  {
    if |s| > 1 {
      ValuePositive(s[..|s| - 1]);
    }
  }

  /** A digit string without a leading zero is the numeral of its value. */
  lemma {:induction false} PrintOfValue(s: string)
    requires AllDigits(s) && s != [] && s[0] != '0'
    ensures Print(Value(s)) == s
  {
    var front, d := s[..|s| - 1], DigitValue(s[|s| - 1]);
    assert s == front + [DigitChar(d)];
    if |s| > 1 {
      ValuePositive(front);
      PrintOfValue(front);
      assert Value(s) / 10 == Value(front) && Value(s) % 10 == d;
    }
  }

  lemma {:induction false} NonDigitsConcat(a: string, b: string)
    ensures NonDigits(a + b) == NonDigits(a) + NonDigits(b)
  {
    if b == [] {
      assert a + b == a;
    } else {
      NonDigitsConcat(a, b[..|b| - 1]);
      assert (a + b)[..|a + b| - 1] == a + b[..|b| - 1];
    }
  }

  lemma {:induction false} NonDigitsZero(s: string)
    ensures NonDigits(s) == 0 <==> AllDigits(s)
  {
    if s != [] {
      NonDigitsZero(s[..|s| - 1]);
      assert s == s[..|s| - 1] + [s[|s| - 1]];
    }
  }

  lemma ThreeDigits(a: char, b: char, c: char)
    requires IsDigit(a) && IsDigit(b) && IsDigit(c)
    ensures Value([a, b, c]) == 100 * DigitValue(a) + 10 * DigitValue(b) + DigitValue(c)
  {
    assert [a][..0] == [] && [a, b][..1] == [a] && [a, b, c][..2] == [a, b];
    assert Value([a]) == DigitValue(a);
    assert Value([a, b]) == 10 * DigitValue(a) + DigitValue(b);
  }

  lemma SplitThousand(n: nat)
    ensures n % 1000 == 100 * (n / 100 % 10) + 10 * (n / 10 % 10) + n % 10
    ensures n / 10 / 10 == n / 100
  {
    var c, m := n % 10, n / 10;
    var b, l := m % 10, m / 10;
    var a, r := l % 10, l / 10;
    assert n == 10 * m + c && m == 10 * l + b && l == 10 * r + a;
    DivModUnique(n, 100, l, 10 * b + c);
    DivModUnique(n, 1000, r, 100 * a + 10 * b + c);
  }

  /** The numeral ends in the numerals of the last one, two or three digits. */
  lemma {:induction false} PrintTail(n: nat)
    ensures |Print(n)| == 1 <==> n < 10
    ensures |Print(n)| == 2 <==> 10 <= n < 100
    ensures |Print(n)| >= 3 ==> Value(Print(n)[|Print(n)| - 3..]) == n % 1000
  {
    SplitThousand(n);
    var s := Print(n);
    if n >= 100 {
      var a, b, c := DigitChar(n / 100 % 10), DigitChar(n / 10 % 10), DigitChar(n % 10);
      var front := LastDigit(n / 100);
      assert Print(n / 10) == Print(n / 100) + [b];
      assert s == front + [a, b, c];
      assert s[|s| - 3..] == [a, b, c];
      ThreeDigits(a, b, c);
    }
  }

  lemma LastDigit(n: nat) returns (front: string)
    ensures Print(n) == front + [DigitChar(n % 10)]
  {
    front := if n < 10 then [] else Print(n / 10);
  }

  /** Only the numeral of 0 starts with a zero. */
  lemma {:induction false} PrintHead(n: nat)
    ensures Print(n)[0] == '0' <==> n == 0
  {
    if n >= 10 {
      PrintHead(n / 10);
    }
  }

  /** How many digits a numeral has. */
  lemma {:induction false} PrintLength(n: nat, d: nat)
    requires d >= 1
    ensures |Print(n)| <= d <==> n < Pow10(d)
  {
    if n >= 10 && d > 1 {
      PrintLength(n / 10, d - 1);
    }
  }

  lemma Billion()
    ensures Pow10(9) == 1000000000 && Pow10(10) == 10000000000
  {
    assert Pow10(3) == 1000;
    assert Pow10(6) == 1000 * Pow10(3);
    assert Pow10(9) == 1000 * Pow10(6);
  }

  lemma {:induction false} ValueConcat(a: string, b: string)
    requires AllDigits(a) && AllDigits(b)
    ensures AllDigits(a + b) && Value(a + b) == Value(a) * Pow10(|b|) + Value(b)
  {
    if b == [] {
      assert a + b == a;
    } else {
      var front := b[..|b| - 1];
      ValueConcat(a, front);
      var s, d := a + b, DigitValue(b[|b| - 1]);
      assert s[..|s| - 1] == a + front && s[|s| - 1] == b[|b| - 1];
      assert Value(s) == 10 * Value(a + front) + d && Value(b) == 10 * Value(front) + d;
      assert Pow10(|b|) == 10 * Pow10(|front|);
      TenTimes(Value(a), Pow10(|front|));
    }
  }

  lemma TenTimes(v: nat, w: nat)
    ensures v * (10 * w) == 10 * (v * w)
  {
  }

  lemma {:induction false} KeepDigitsConcat(a: string, b: string)
    ensures KeepDigits(a + b) == KeepDigits(a) + KeepDigits(b)
  {
    if b == [] {
      assert a + b == a;
      assert KeepDigits(a) + [] == KeepDigits(a);
    } else {
      var front, last := b[..|b| - 1], if IsDigit(b[|b| - 1]) then [b[|b| - 1]] else [];
      KeepDigitsConcat(a, front);
      assert (a + b)[..|a + b| - 1] == a + front && (a + b)[|a + b| - 1] == b[|b| - 1];
      assert KeepDigits(a) + (KeepDigits(front) + last) == (KeepDigits(a) + KeepDigits(front)) + last;
    }
  }

  lemma {:induction false} KeepDigitsAll(s: string)
    requires AllDigits(s)
    ensures KeepDigits(s) == s
  {
    if s != [] {
      KeepDigitsAll(s[..|s| - 1]);
      assert s == s[..|s| - 1] + [s[|s| - 1]];
    }
  }
}
