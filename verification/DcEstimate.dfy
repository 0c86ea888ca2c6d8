/**
 The error analysis of `div`.  The quotient digit at each step is guessed from
 the three leading digits of the running dividend and the two or three leading
 digits of the divisor.  Everything here is about integers:

   u   is 10000 * divisor * 100^offset,
   r   is 10000 * running dividend,
   x   is the weight that puts the divisor's leading three digits `c3` next to `u`,
   t   is the running dividend's leading three digits.
 */
module DcEstimate {

  /** `magic` in the source: the divisor's top digit is below ten. */
  predicate Magic(c3: int) {
    c3 < 100000
  }

  /** The divisor estimate `c`: two digits, or three digits scaled by 8/100. */
  function Guess(c3: int): int {
    if Magic(c3) then c3 * 2 / 25 else c3 / 100
  }

  /** `td`, with the extra one for the last position. */
  function Numerator(c3: int, t: int, last: bool): int {
    var td := if last then t + 1 else t;
    if Magic(c3) then td * 8 else td
  }

  /** `cc`, with the extra one for every position but the last. */
  function Denominator(c3: int, last: bool): int {
    if last then Guess(c3) else Guess(c3) + 1
  }

  /** The guess was lowered by one because it was too close to call. */
  predicate Under(c3: int, t: int, last: bool)
    requires c3 >= 10000
  {
    var td, cc := Numerator(c3, t, last), Denominator(c3, last);
    Magic(c3) && td % cc < 8 && td / cc > 0
  }

  function Digit(c3: int, t: int, last: bool): int
    requires c3 >= 10000
  {
    Numerator(c3, t, last) / Denominator(c3, last) - (if Under(c3, t, last) then 1 else 0)
  }

  /** The leading digits bracket the divisor and the running dividend. */
  ghost predicate Bracketed(c3: int, t: int, x: int, u: int, r: int)
  {
    && 10000 <= c3 < 1000000 && 0 <= t && 0 < x
    && c3 * x <= u < (c3 + 1) * x
    && t * (100 * x) <= r < (t + 1) * (100 * x)
    && r < 120 * u
  }

  /** Multiplying a linear inequality by a positive weight. */
  lemma Scale(k: int, a: int, l: int, b: int, m: int, x: int)
    requires k * a <= l * b + m && 0 <= x
    ensures k * (a * x) <= l * (b * x) + m * x
  {
    var g := l * b + m - k * a;
    assert 0 <= g * x;
    calc {
      g * x;
      (l * b + m) * x - (k * a) * x;
      (l * b) * x + m * x - (k * a) * x;
      { assert (l * b) * x == l * (b * x) && (k * a) * x == k * (a * x); }
      l * (b * x) + m * x - k * (a * x);
    }
  }

  lemma Assoc(k: int, a: int, x: int)
    ensures k * a * x == k * (a * x)
  {
  }

  lemma Distr(a: int, b: int, x: int)
    ensures (a + b) * x == a * x + b * x
  {
  }

  /** What the two or three digit guess says about `u`. */
  lemma GuessBounds(c3: int, t: int, x: int, u: int, r: int)
    requires Bracketed(c3, t, x, u, r)
    ensures var c := Guess(c3);
            if Magic(c3) then 800 <= c && 25 * (c * x) <= 2 * u <= 25 * (c * x) + 26 * x
            else 1000 <= c && 100 * (c * x) <= u <= 100 * (c * x) + 100 * x
  {
    var c := Guess(c3);
    Distr(c3, 1, x);
    if Magic(c3) {
      Scale(25, c, 2, c3, 0, x);
      Scale(2, c3, 25, c, 24, x);
    } else {
      Scale(100, c, 1, c3, 0, x);
      Scale(1, c3, 100, c, 99, x);
    }
  }

  lemma Mono(a: int, b: int, c: int)
    requires a <= b && 0 <= c
    ensures a * c <= b * c
  {
  }

  lemma CancelLess(a: int, b: int, c: int)
    requires a * c < b * c && 0 < c
    ensures a < b
  {
  }

  /** Bounds on the divisor, multiplied by a quotient digit. */
  lemma TimesDigit(q: int, lo: int, mid: int, hi: int)
    requires 0 <= q && lo <= mid <= hi
    ensures q * lo <= q * mid <= q * hi
  {
    Mono(lo, mid, q);
    Mono(mid, hi, q);
  }

  /** Reassociating `q * (a * cx + m * x)` into products of `q`. */
  lemma Spread(q: int, a: int, cx: int, m: int, x: int)
    ensures q * (a * cx) == a * (q * cx)
    ensures q * (a * cx + m * x) == a * (q * cx) + m * (q * x)
  {
    assert q * (m * x) == m * (q * x);
    assert q * (a * cx + m * x) == q * (a * cx) + q * (m * x);
  }

  lemma DivNonNegative(td: int, cc: int)
    requires 0 <= td && 0 < cc
    ensures 0 <= td / cc
  {
  }

  lemma GuessPositive(c3: int)
    requires 10000 <= c3
    ensures Guess(c3) >= 800 && (!Magic(c3) ==> Guess(c3) >= 1000)
  {
  }

  /** The floor property of the guess, weighted by `x`. */
  lemma Floor(td: int, c: int, e: int, x: int)
    requires 0 < c + e && 0 < x
    ensures var q := td / (c + e);
            && q * (c * x) + e * (q * x) <= td * x
            && td * x <= q * (c * x) + e * (q * x) + c * x + e * x - x
            && td * x == q * (c * x) + e * (q * x) + (td % (c + e)) * x
            && 0 <= td % (c + e) < c + e
  {
    var q, m := td / (c + e), td % (c + e);
    assert td == q * (c + e) + m;
    Distr(q * (c + e), m, x);
    assert q * (c + e) * x == q * ((c + e) * x);
    Distr(c, e, x);
    assert q * (e * x) == e * (q * x);
    assert q * (c * x + e * x) == q * (c * x) + q * (e * x);
    assert 0 <= m * x;
    Distr(c + e - 1 - m, m, x);
    assert 0 <= (c + e - 1 - m) * x;
    Distr(c + e, -1, x);
  }

  /**
   The products that the four cases compare, as plain integers:
   `qu` is q*u, `qcx` is q*c*x, and so on.  `k`, `m` and `n` give the scale of
   the guess: k*c*x <= n*u <= k*c*x + m*x.
   */
  ghost predicate Weighed(k: int, m: int, n: int, u: int, r: int, x: int, cx: int, tx: int, qx: int, qcx: int, qu: int)
  {
    && 0 < x && 0 <= qx && 0 <= qcx
    && k * cx <= n * u <= k * cx + m * x
    && k * qcx <= n * qu <= k * qcx + m * qx
    && 100 * tx <= r < 100 * tx + 100 * x
    && r < 120 * u
  }

  lemma Weigh(c3: int, t: int, x: int, u: int, r: int, q: int)
    requires Bracketed(c3, t, x, u, r) && 0 <= q
    ensures var c := Guess(c3); var (k, m, n) := if Magic(c3) then (25, 26, 2) else (100, 100, 1);
            Weighed(k, m, n, u, r, x, c * x, t * x, q * x, q * (c * x), q * u)
  {
    var c := Guess(c3);
    var (k, m, n) := if Magic(c3) then (25, 26, 2) else (100, 100, 1);
    GuessBounds(c3, t, x, u, r);
    var cx := c * x;
    TimesDigit(q, k * cx, n * u, k * cx + m * x);
    Spread(q, k, cx, m, x);
    Spread(q, n, u, 0, 0);
    assert t * (100 * x) == 100 * (t * x);
    assert (t + 1) * (100 * x) == 100 * (t * x) + 100 * x;
    assert 0 <= q * x;
    Mono(0, c, x);
    assert 0 <= q * cx;
  }

  /** Guess below the last position, divisor top digit at least ten. */
  lemma BelowPlain(c3: int, t: int, x: int, u: int, r: int)
    requires Bracketed(c3, t, x, u, r) && !Magic(c3)
    ensures var q := t / (Guess(c3) + 1);
            0 <= q < 120 && q * u <= r && 5 * (r - q * u) < 6 * u
  {
    var c := Guess(c3);
    var q := t / (c + 1);
    GuessPositive(c3);
    DivNonNegative(t, c + 1);
    Weigh(c3, t, x, u, r, q);
    Floor(t, c, 1, x);
    CancelLess(q, 120, u);
    Mono(q, 119, x);
    Mono(1000, c, x);
    LinearBelowPlain(u, r, x, c * x, t * x, q * x, q * (c * x), q * u);
  }

  lemma LinearBelowPlain(u: int, r: int, x: int, cx: int, tx: int, qx: int, qcx: int, qu: int)
    requires Weighed(100, 100, 1, u, r, x, cx, tx, qx, qcx, qu)
    requires qcx + qx <= tx <= qcx + qx + cx
    requires qx <= 119 * x && 1000 * x <= cx
    ensures qu <= r && 5 * (r - qu) < 6 * u
  {
  }

  /** The scaled guess never reaches 121. */
  lemma MagicDigitBound(c3: int, t: int, x: int, u: int, r: int)
    requires Bracketed(c3, t, x, u, r) && Magic(c3)
    ensures 8 * t < 120 * Guess(c3) + 125
  {
    var c := Guess(c3);
    Weigh(c3, t, x, u, r, 0);
    Distr(120 * c, 125, x);
    Assoc(120, c, x);
    Assoc(8, t, x);
    CancelLess(8 * t, 120 * c + 125, x);
  }

  lemma QuotientBelow(td: int, cc: int, b: int)
    requires 0 < cc && td < b * cc
    ensures td / cc < b
  {
    assert td == (td / cc) * cc + td % cc;
    CancelLess(td / cc, b, cc);
  }

  /** Guess below the last position, divisor top digit below ten. */
  lemma BelowMagic(c3: int, t: int, x: int, u: int, r: int)
    requires Bracketed(c3, t, x, u, r) && Magic(c3)
    ensures var cc := Guess(c3) + 1; var q := 8 * t / cc;
            var d := if 8 * t % cc < 8 && q > 0 then q - 1 else q;
            0 <= d <= 120 && d * u <= r && 5 * (r - d * u) < 6 * u
  {
    var c := Guess(c3);
    var q, m := 8 * t / (c + 1), 8 * t % (c + 1);
    GuessPositive(c3);
    DivNonNegative(8 * t, c + 1);
    Weigh(c3, t, x, u, r, q);
    Floor(8 * t, c, 1, x);
    MagicDigitBound(c3, t, x, u, r);
    QuotientBelow(8 * t, c + 1, 121);
    Mono(q, 120, x);
    Mono(800, c, x);
    Mono(m, c, x);
    Assoc(8, t, x);
    if m >= 8 {
      Mono(8, m, x);
    } else {
      Mono(m, 7, x);
    }
    Distr(q, -1, u);
    LinearBelowMagic(u, r, x, c * x, t * x, q * x, q * (c * x), q * u, m * x, m < 8);
  }

  lemma LinearBelowMagic(u: int, r: int, x: int, cx: int, tx: int, qx: int, qcx: int, qu: int, mx: int, close: bool)
    requires Weighed(25, 26, 2, u, r, x, cx, tx, qx, qcx, qu)
    requires 8 * tx == qcx + qx + mx && 0 <= mx <= cx
    requires qx <= 120 * x && 800 * x <= cx
    requires if close then mx <= 7 * x else 8 * x <= mx
    ensures 5 * (r - qu) < 6 * u
    ensures !close ==> qu <= r
    ensures close ==> qu - u <= r && 5 * (r - qu + u) < 6 * u
  {
  }

  /** Guess at the last position, divisor top digit at least ten. */
  lemma LastPlain(c3: int, t: int, x: int, u: int, r: int)
    requires Bracketed(c3, t, x, u, r) && !Magic(c3)
    ensures var q := (t + 1) / Guess(c3);
            0 <= q <= 120 && q * u - u <= r < q * u + u
  {
    var c := Guess(c3);
    var q := (t + 1) / c;
    GuessPositive(c3);
    DivNonNegative(t + 1, c);
    Weigh(c3, t, x, u, r, q);
    Floor(t + 1, c, 0, x);
    Distr(t, 1, x);
    Distr(120 * c, 120, x);
    Assoc(120, c, x);
    CancelLess(t, 120 * c + 120, x);
    QuotientBelow(t + 1, c, 121);
    Mono(q, 120, x);
    Mono(1000, c, x);
    LinearLastPlain(u, r, x, c * x, t * x, q * x, q * (c * x), q * u);
  }

  lemma LinearLastPlain(u: int, r: int, x: int, cx: int, tx: int, qx: int, qcx: int, qu: int)
    requires Weighed(100, 100, 1, u, r, x, cx, tx, qx, qcx, qu)
    requires qcx <= tx + x <= qcx + cx - x
    requires qx <= 120 * x && 1000 * x <= cx
    ensures qu - u <= r < qu + u
  {
  }

  /** Guess at the last position, divisor top digit below ten. */
  lemma LastMagic(c3: int, t: int, x: int, u: int, r: int)
    requires Bracketed(c3, t, x, u, r) && Magic(c3)
    ensures var cc := Guess(c3); var q := 8 * (t + 1) / cc;
            0 <= q <= 120 && q * u - u <= r < q * u + u
  {
    var c := Guess(c3);
    var td := 8 * (t + 1);
    var q, m := td / c, td % c;
    GuessPositive(c3);
    DivNonNegative(td, c);
    Weigh(c3, t, x, u, r, q);
    Floor(td, c, 0, x);
    Distr(t, 1, x);
    Assoc(8, t + 1, x);
    MagicDigitBound(c3, t, x, u, r);
    QuotientBelow(td, c, 121);
    Mono(q, 120, x);
    Mono(800, c, x);
    LinearLastMagic(u, r, x, c * x, t * x, q * x, q * (c * x), q * u);
  }

  lemma LinearLastMagic(u: int, r: int, x: int, cx: int, tx: int, qx: int, qcx: int, qu: int)
    requires Weighed(25, 26, 2, u, r, x, cx, tx, qx, qcx, qu)
    requires qcx <= 8 * tx + 8 * x <= qcx + cx - x
    requires qx <= 120 * x && 800 * x <= cx
    ensures qu - u <= r < qu + u
  {
  }

  /**
   Below the last position the guess is never too large, so the subtraction never
   borrows, and what is left is below 6/5 of the divisor.
   */
  lemma StepBelow(c3: int, t: int, x: int, u: int, r: int)
    requires Bracketed(c3, t, x, u, r)
    ensures var d := Digit(c3, t, false);
            0 <= d <= 120 && d * u <= r && 5 * (r - d * u) < 6 * u
  {
    if Magic(c3) {
      BelowMagic(c3, t, x, u, r);
    } else {
      BelowPlain(c3, t, x, u, r);
    }
  }

  /**
   At the last position the guess is off by at most one: too large by one when it
   was not lowered, too small by one when it was.
   */
  lemma StepLast(c3: int, t: int, x: int, u: int, r: int)
    requires Bracketed(c3, t, x, u, r)
    ensures var d := Digit(c3, t, true);
            && 0 <= d <= 120
            && (if Under(c3, t, true) then 0 <= r - d * u < 2 * u else -u <= r - d * u < u)
            && (r < d * u ==> d > 0)
  {
    if Magic(c3) {
      LastMagic(c3, t, x, u, r);
      Distr(8 * (t + 1) / Guess(c3), -1, u);
    } else {
      LastPlain(c3, t, x, u, r);
    }
  }
}
