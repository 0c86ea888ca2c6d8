/**
 `factor`: trial division by 2, 3, 5, 7 and then by the numbers a wheel of 48 steps
 visits, over the integers.
 */
module Factor {

  ghost predicate Divides(d: int, n: int) {
    d > 0 && n % d == 0
  }

  ghost predicate Prime(p: int) {
    p >= 2 && forall k :: 2 <= k < p ==> !Divides(k, p)
  }

  /** No number from 2 to `d` divides `n`. */
  ghost predicate Rough(n: int, d: int) {
    forall k :: 2 <= k <= d ==> !Divides(k, n)
  }

  function Product(s: seq<int>): int {
    if s == [] then 1 else Product(s[..|s| - 1]) * s[|s| - 1]
  }

  /** Primes in ascending order, the last no greater than `top`. */
  ghost predicate Ladder(s: seq<int>, top: int) {
    && (forall k :: 0 <= k < |s| ==> Prime(s[k]) && s[k] <= top)
    && (forall i, j :: 0 <= i < j < |s| ==> s[i] <= s[j])
  }

  // ---------------------------------------------------------------- divisibility

  lemma DividesTrans(a: int, b: int, n: int)
    requires Divides(a, b) && Divides(b, n)
    ensures Divides(a, n)
  {
    var q, r := b / a, n / b;
    assert b == a * q && n == b * r;
    assert n == a * (q * r);
    MultipleOf(a, q * r);
  }

  lemma MultipleOf(a: int, k: int)
    requires a > 0
    ensures Divides(a, a * k)
  {
    var m := a * k;
    var q, r := m / a, m % a;
    assert m == a * q + r && 0 <= r < a;
    assert a * (k - q) == a * k - a * q;
    SmallMultiple(a, k - q);
  }

  lemma SmallMultiple(a: int, j: int)
    requires 0 <= a * j < a
    ensures j == 0
  {
    if j >= 1 {
      Grow(a, j);
    }
    if j <= -1 {
      Grow(a, -j);
    }
  }

  lemma Grow(a: int, k: int)
    requires a > 0 && k >= 1
    ensures a * k >= a && (k >= 2 ==> a * k > a)
  {
    assert a * k == a + a * (k - 1);
    assert a * (k - 1) >= 0;
    if k >= 2 {
      assert a * (k - 1) == a + a * (k - 2);
      assert a * (k - 2) >= 0;
    }
  }

  /** Divisors of a quotient divide the number. */
  lemma RoughQuotient(n: int, d: int, top: int)
    requires d >= 2 && n >= 1 && Divides(d, n) && Rough(n, top)
    ensures Rough(n / d, top) && 1 <= n / d < n && n == n / d * d
  {
    var q := n / d;
    assert n == q * d;
    assert q >= 1;
    Grow(q, d);
    forall k | 2 <= k <= top
      ensures !Divides(k, q)
    {
      if Divides(k, q) {
        MultipleOf(q, d);
        DividesTrans(k, q, n);
      }
    }
  }

  /** The first number that divides a rough number is prime. */
  lemma DivisorIsPrime(n: int, d: int)
    requires d >= 2 && Divides(d, n) && Rough(n, d - 1)
    ensures Prime(d)
  {
    forall k | 2 <= k < d
      ensures !Divides(k, d)
    {
      if Divides(k, d) {
        DividesTrans(k, d, n);
      }
    }
  }

  /** What is left has no divisor up to its root, so it is prime. */
  lemma LeftoverIsPrime(n: int, d: int)
    requires n > 1 && d >= 2 && (d - 1) * (d - 1) > n && Rough(n, d)
    ensures Prime(n) && n > d
  {
    assert Divides(n, n);
    forall k | 2 <= k < n
      ensures !Divides(k, n)
    {
      if Divides(k, n) {
        var q := n / k;
        assert n == k * q;
        assert k > d;
        assert q >= 2 by {
          if q <= 1 { Below(k, q); }
        }
        MultipleOf(q, k);
        assert q * k == n;
        assert Divides(q, n);
        assert q > d;
        Squares(k, q, d);
      }
    }
  }

  lemma Below(k: int, q: int)
    requires k >= 0 && q <= 1
    ensures k * q <= k
  {
    assert k * q == k - k * (1 - q);
    assert k * (1 - q) >= 0;
  }

  lemma Squares(k: int, q: int, d: int)
    requires k > d >= 2 && q > d
    ensures k * q > (d - 1) * (d - 1)
  {
    assert k * q >= d * q by { assert (k - d) * q >= 0; }
    assert d * q >= d * d by { assert d * (q - d) >= 0; }
    assert d * d == (d - 1) * (d - 1) + 2 * d - 1;
  }

  // ---------------------------------------------------------------- the wheel

  /** The table of the wheel's 48 steps. */
  function Wheel(i: nat): int {
    match i
    case 0 => 2 case 1 => 10 case 2 => 2 case 3 => 4 case 4 => 2 case 5 => 4
    case 6 => 6 case 7 => 2 case 8 => 6 case 9 => 4 case 10 => 2 case 11 => 4
    case 12 => 6 case 13 => 6 case 14 => 2 case 15 => 6 case 16 => 4 case 17 => 2
    case 18 => 6 case 19 => 4 case 20 => 6 case 21 => 8 case 22 => 4 case 23 => 2
    case 24 => 4 case 25 => 2 case 26 => 4 case 27 => 8 case 28 => 6 case 29 => 4
    case 30 => 6 case 31 => 2 case 32 => 4 case 33 => 6 case 34 => 2 case 35 => 6
    case 36 => 6 case 37 => 4 case 38 => 2 case 39 => 4 case 40 => 6 case 41 => 2
    case 42 => 6 case 43 => 4 case 44 => 2 case 45 => 4 case 46 => 2 case _ => 10
  }

  /** Divisible by 2, 3, 5 or 7. */
  predicate Caught(x: int) {
    x % 2 == 0 || x % 3 == 0 || x % 5 == 0 || x % 7 == 0
  }

  /** All numbers strictly between `r` and `r + w` are caught. */
  predicate Gap(r: int, w: int) {
    && 2 <= w <= 10 && Caught(r + 1)
    && (w <= 2 || (Caught(r + 2) && Caught(r + 3)))
    && (w <= 4 || (Caught(r + 4) && Caught(r + 5)))
    && (w <= 6 || (Caught(r + 6) && Caught(r + 7)))
    && (w <= 8 || (Caught(r + 8) && Caught(r + 9)))
  }

  /** The divisor, less a multiple of 210, before step `i`; the numbers below 210 prime to it. */
  function Residue(i: nat): int {
    match i
    case 0 => -1 case 1 => 1 case 2 => 11 case 3 => 13 case 4 => 17 case 5 => 19 case 6 => 23
    case 7 => 29 case 8 => 31 case 9 => 37 case 10 => 41 case 11 => 43 case 12 => 47 case 13 => 53
    case 14 => 59 case 15 => 61 case 16 => 67 case 17 => 71 case 18 => 73 case 19 => 79 case 20 => 83
    case 21 => 89 case 22 => 97 case 23 => 101 case 24 => 103 case 25 => 107 case 26 => 109 case 27 => 113
    case 28 => 121 case 29 => 127 case 30 => 131 case 31 => 137 case 32 => 139 case 33 => 143 case 34 => 149
    case 35 => 151 case 36 => 157 case 37 => 163 case 38 => 167 case 39 => 169 case 40 => 173 case 41 => 179
    case 42 => 181 case 43 => 187 case 44 => 191 case 45 => 193 case 46 => 197 case 47 => 199 case _ => 209
  }

  lemma FirstSteps(i: nat)
    requires i < 24
    ensures Residue(i) + Wheel(i) == Residue(i + 1) && Gap(Residue(i), Wheel(i))
  {
  }

  lemma LastSteps(i: nat)
    requires 24 <= i < 48
    ensures Residue(i) + Wheel(i) == Residue(i + 1) && Gap(Residue(i), Wheel(i))
  {
  }

  /** Each step leads to the next residue, past caught numbers only. */
  lemma Step(i: nat)
    requires i < 48
    ensures Residue(i) + Wheel(i) == Residue(i + 1) && Gap(Residue(i), Wheel(i))
  {
    if i < 24 {
      FirstSteps(i);
    } else {
      LastSteps(i);
    }
  }

  lemma CaughtAt(base: int, r: int)
    requires base % 210 == 0 && Caught(r)
    ensures Caught(base + r)
  {
    var q := base / 210;
    if r % 2 == 0 {
      MultipleOf(2, 105 * q + r / 2);
    } else if r % 3 == 0 {
      MultipleOf(3, 70 * q + r / 3);
    } else if r % 5 == 0 {
      MultipleOf(5, 42 * q + r / 5);
    } else {
      MultipleOf(7, 30 * q + r / 7);
    }
  }

  /** A number that is caught has a divisor among 2, 3, 5 and 7, so it divides no rough number. */
  lemma CaughtNoDivisor(n: int, x: int)
    requires n >= 1 && x >= 1 && Caught(x) && Rough(n, 7)
    ensures !Divides(x, n)
  {
    if Divides(x, n) {
      if x % 2 == 0 {
        assert Divides(2, x);
        DividesTrans(2, x, n);
      } else if x % 3 == 0 {
        assert Divides(3, x);
        DividesTrans(3, x, n);
      } else if x % 5 == 0 {
        assert Divides(5, x);
        DividesTrans(5, x, n);
      } else {
        assert Divides(7, x);
        DividesTrans(7, x, n);
      }
    }
  }

  /** Moving the divisor on by one step of the wheel passes no divisor of what is left. */
  lemma StepRough(n: int, base: int, i: nat, d: int)
    requires n >= 1 && base >= 0 && base % 210 == 0 && i < 48 && d == base + Residue(i) && d >= 1
    requires Rough(n, d) && Rough(n, 7)
    ensures Rough(n, d + Wheel(i) - 1) && Wheel(i) >= 2
  {
    Step(i);
    forall k | 2 <= k <= d + Wheel(i) - 1
      ensures !Divides(k, n)
    {
      if k > d {
        var r := k - base;
        assert Caught(r);
        CaughtAt(base, r);
        CaughtNoDivisor(n, k);
      }
    }
  }

  // ---------------------------------------------------------------- the program

  /** What has been printed and what is left make up the number. */
  ghost predicate Split(n0: int, n: int, out: seq<int>, d: int) {
    1 <= n && Product(out) * n == n0 && Ladder(out, d)
  }

  lemma SplitStep(n0: int, n: int, out: seq<int>, d: int)
    requires Split(n0, n, out, d) && d >= 2 && Divides(d, n) && Rough(n, d - 1)
    ensures Split(n0, n / d, out + [d], d) && Rough(n / d, d - 1) && n / d < n
  {
    RoughQuotient(n, d, d - 1);
    DivisorIsPrime(n, d);
    ProductSnoc(out, d);
    Regroup(Product(out), d, n / d);
  }

  lemma ProductSnoc(s: seq<int>, d: int)
    ensures Product(s + [d]) == Product(s) * d
  {
    assert (s + [d])[..|s|] == s;
  }

  lemma Regroup(a: int, d: int, q: int)
    ensures a * d * q == a * (q * d)
  {
  }

  /** Divides `d` out as often as it goes, printing it each time. */
  method DivideOut(n1: int, d: int, out1: seq<int>, ghost n0: int) returns (n: int, out: seq<int>)
    requires d >= 2 && Split(n0, n1, out1, d) && Rough(n1, d - 1)
    ensures Split(n0, n, out, d) && Rough(n, d) && n <= n1
  {
    n, out := n1, out1;
    while n % d == 0
      invariant Split(n0, n, out, d) && Rough(n, d - 1) && n <= n1
      decreases n
    {
      SplitStep(n0, n, out, d);
      out := out + [d];
      n := n / d;
    }
  }

  lemma LadderUp(s: seq<int>, top: int, top': int)
    requires Ladder(s, top) && top <= top'
    ensures Ladder(s, top')
  {
  }

  /**
   `factor`: for every number at least one it comes to an end, and the numbers printed
   are primes in ascending order whose product is the number. The comparison with
   `sqrt(n) + 1` is exact over the integers when written with squares.
   */
  method Factorise(n0: nat) returns (out: seq<int>)
    ensures n0 == 0 ==> out == []
    ensures n0 >= 1 ==> Product(out) == n0 && forall k :: 0 <= k < |out| ==> Prime(out[k])
    ensures forall i, j :: 0 <= i < j < |out| ==> out[i] <= out[j]
  {
    out := [];
    if n0 == 0 {
      return;
    }
    var n: int;
    n, out := SmallPrimes(n0);
    n, out := Roll(n, out, n0);
  }

  /** The divisions by 2, 3, 5 and 7. */
  method SmallPrimes(n0: int) returns (n: int, out: seq<int>)
    requires n0 >= 1
    ensures Split(n0, n, out, 7) && Rough(n, 7) && n <= n0
  {
    n, out := DivideOut(n0, 2, [], n0);
    n, out := DivideOut(n, 3, out, n0);
    RoughNext(n, 4, 2);
    n, out := DivideOut(n, 5, out, n0);
    RoughNext(n, 6, 2);
    n, out := DivideOut(n, 7, out, n0);
  }

  /** A multiple of a number that does not divide `n` does not divide it either. */
  lemma RoughNext(n: int, d: int, p: int)
    requires n >= 1 && 2 <= p < d && Divides(p, d) && Rough(n, d - 1)
    ensures Rough(n, d)
  {
    if Divides(d, n) {
      DividesTrans(p, d, n);
    }
  }

  /** The wheel, turned until the divisor is past the root of what is left. */
  method Roll(n1: int, out1: seq<int>, ghost n0: int) returns (n: int, out: seq<int>)
    requires Split(n0, n1, out1, 7) && Rough(n1, 7)
    ensures Product(out) == n0 && exists top :: Ladder(out, top)
  {
    n, out := n1, out1;
    var d, i := 1, 1;
    ghost var base := 0;
    while true
      invariant 0 <= i < 48 && base >= 0 && base % 210 == 0 && d == base + Residue(i) && d >= 1
      invariant base <= n1 + 2 && n <= n1
      invariant Split(n0, n, out, if d < 7 then 7 else d) && Rough(n, d) && Rough(n, 7)
      decreases n1 + 300 - d
    {
      n, d, out := Advance(n, d, out, i, base, n0);
      i := i + 1;
      if i >= 48 {
        i := 0;
        base := base + 210;
        if (d - 1) * (d - 1) > n {
          break;
        }
        RootBound(d, n);
      }
    }
    ghost var top := d;
    if n > 1 {
      LeftoverIsPrime(n, d);
      assert (out + [n])[..|out|] == out;
      out := out + [n];
      top := n;
    }
    assert Ladder(out, top);
  }

  lemma RootBound(d: int, n: int)
    requires (d - 1) * (d - 1) <= n && d >= 1
    ensures d <= n + 1
  {
    if d > n + 1 {
      Grow(d - 1, d - 1);
    }
  }

  /** One step of the wheel and the divisions it leads to. */
  method Advance(n1: int, d1: int, out1: seq<int>, i: nat, ghost base: int, ghost n0: int)
    returns (n: int, d: int, out: seq<int>)
    requires i < 48 && base >= 0 && base % 210 == 0 && d1 == base + Residue(i) && d1 >= 1
    requires Split(n0, n1, out1, if d1 < 7 then 7 else d1) && Rough(n1, d1) && Rough(n1, 7)
    ensures d == d1 + Wheel(i) == base + Residue(i + 1) && d > d1 && d >= 11
    ensures Split(n0, n, out, d) && Rough(n, d) && n <= n1
  {
    StepRough(n1, base, i, d1);
    Step(i);
    d := d1 + Wheel(i);
    LadderUp(out1, if d1 < 7 then 7 else d1, d);
    n, out := DivideOut(n1, d, out1, n0);
  }
}
