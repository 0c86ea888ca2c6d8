/** Long division on `Blk`s: `div`, quotient and the global `rem`. */
module DcDiv {
  import opened DcRadix
  import opened DcBlk
  import opened DcAdd
  import opened DcMult
  import opened DcEstimate

  // ---- leading digits ----

  /** The `i`th digit from the top, zero beyond the bottom (`sfbeg(p)?0:sbackc(p)`). */
  function Lead(s: seq<int>, i: nat): int {
    if i < |s| then s[|s| - 1 - i] else 0
  }

  function Top3(s: seq<int>): int {
    Lead(s, 0) * 10000 + Lead(s, 1) * 100 + Lead(s, 2)
  }

  /**
   A running dividend: digits 0..99 below a top cell that may hold more, as long
   as it fits a signed char.
   */
  ghost predicate Window(s: seq<int>)
  {
    && |s| > 0 && 0 <= s[|s| - 1] <= 127
    && forall i :: 0 <= i < |s| - 1 ==> 0 <= s[i] <= 99
  }

  lemma Top3Value(s: seq<int>)
    requires |s| >= 3
    ensures Val(s) == Val(s[..|s| - 3]) + Top3(s) * Pow(|s| - 3)
  {
    var k := |s| - 3;
    var w := Pow(k);
    ValPrefix(s, k);
    ValPrefix(s, k + 1);
    ValPrefix(s, k + 2);
    assert s[..k + 3] == s;
    var a, b, c := Lead(s, 0), Lead(s, 1), Lead(s, 2);
    assert Val(s) == Val(s[..k]) + (c * w + b * Pow(k + 1) + a * Pow(k + 2));
    TopSum(a, b, c, Top3(s), w, Pow(k + 1), Pow(k + 2));
  }

  lemma Top3Long(s: seq<int>)
    requires Window(s) && |s| >= 3
    ensures var w := Pow(|s| - 3);
            Top3(s) * w <= Val(s) < Top3(s) * w + w
  {
    Top3Value(s);
    ValBounds(s[..|s| - 3]);
  }

  lemma TopSum(a: int, b: int, c: int, t: int, w: int, w1: int, w2: int)
    requires w1 == 100 * w && w2 == 100 * w1 && t == a * 10000 + b * 100 + c
    ensures c * w + b * w1 + a * w2 == t * w
  {
    SumMul(a * 10000 + b * 100, c, w);
    SumMul(a * 10000, b * 100, w);
  }

  lemma Top3Short(s: seq<int>)
    requires Window(s) && |s| <= 2
    ensures Top3(s) * Pow(|s| - 1) == 10000 * Val(s)
  {
    ValPrefix(s, 0);
    assert s[..0] == [] && Pow(0) == 1 && Pow(1) == 100;
    if |s| == 2 {
      ValPrefix(s, 1);
      assert s[..2] == s;
    } else {
      assert s[..1] == s;
    }
  }

  lemma TenThousandfold(t: int, v: int, val: int)
    requires t * v <= val < t * v + v
    ensures t * (10000 * v) <= 10000 * val < t * (10000 * v) + 10000 * v
  {
    assert t * (10000 * v) == 10000 * (t * v);
  }

  /** The three leading digits bracket the value, to within one unit of the third. */
  lemma Top3Bounds(s: seq<int>)
    requires Window(s)
    ensures var w := Pow(|s| - 1);
            Top3(s) >= 0 && Top3(s) * w <= 10000 * Val(s) < (Top3(s) + 1) * w
  {
    SumMul(Top3(s), 1, Pow(|s| - 1));
    if |s| >= 3 {
      Top3Long(s);
      assert Pow(|s| - 1) == 100 * Pow(|s| - 2) && Pow(|s| - 2) == 100 * Pow(|s| - 3);
      TenThousandfold(Top3(s), Pow(|s| - 3), Val(s));
    } else {
      Top3Short(s);
    }
  }

  /** The leading digits of divisor and window satisfy what the error analysis asks for. */
  lemma WindowBracketed(d: seq<int>, s: seq<int>, off: nat)
    requires IsDigits(d) && |d| > 0 && d[|d| - 1] != 0
    requires Window(s) && |s| == off + |d| + 1
    requires Val(s) < 120 * (Val(d) * Pow(off))
    ensures Bracketed(Top3(d), Top3(s), Pow(|d| - 1 + off), 10000 * (Val(d) * Pow(off)), 10000 * Val(s))
  {
    Top3Bounds(d);
    Top3Bounds(s);
    var c3, x, w, z := Top3(d), Pow(|d| - 1 + off), Pow(|d| - 1), Pow(off);
    PowAdd(|d| - 1, off);
    assert Pow(|s| - 1) == 100 * x;
    ScaleBracket(c3, w, 10000 * Val(d), z, x);
    Assoc(10000, Val(d), z);
  }

  lemma ScaleBracket(c3: int, w: int, v: int, z: int, x: int)
    requires c3 * w <= v < (c3 + 1) * w && z > 0 && x == w * z
    ensures c3 * x <= v * z < (c3 + 1) * x
  {
    MulMono(c3 * w, v, z);
    MulMono(v + 1, (c3 + 1) * w, z);
    SumMul(v, 1, z);
    Assoc(c3, w, z);
    Assoc(c3 + 1, w, z);
  }

  // ---- what one subtraction leaves ----

  /** `s1` is `s` minus `m`, digit by digit, with a borrow out of the top. */
  ghost predicate Subtracted(s: seq<int>, m: int, s1: seq<int>, carry: int)
  {
    && |s1| == |s| > 0
    && (forall i :: 0 <= i < |s1| - 1 ==> 0 <= s1[i] <= 99)
    && ((carry == 0 && 0 <= s1[|s1| - 1] <= 127) || (carry == 1 && -128 <= s1[|s1| - 1] < 100))
    && Val(s1) - carry * Pow(|s|) == Val(s) - m
  }

  lemma DivisorFits(d: seq<int>, off: nat)
    requires IsDigits(d)
    ensures 0 <= Val(d) * Pow(off) < Pow(|d| + off)
  {
    ValBounds(d);
    PowAdd(|d|, off);
    MulMono(Val(d) + 1, Pow(|d|), Pow(off));
    SumMul(Val(d), 1, Pow(off));
    MulMono(0, Val(d), Pow(off));
  }

  /** Reading the top cell off a value given as low part plus top cell. */
  lemma TopCell(low: int, top: int, carry: int, b: int, r: int)
    requires 0 <= low < b && r == low + top * b - carry * (100 * b)
    requires (carry == 0 && 0 <= top) || (carry == 1 && top < 100)
    ensures 0 <= r ==> carry == 0 && r == low + top * b
    ensures 0 <= r < 2 * b ==> (top == 0 && r == low) || (top == 1 && r == low + b)
    ensures -b < r < 0 ==> carry == 1 && top == 99 && r == low - b
  {
    if carry == 1 {
      assert r == low + (top - 100) * b by { SumMul(top, -100, b); }
      if top <= 98 {
        MulMono(top - 100, -2, b);
      } else {
        MulMono(top - 100, -1, b);
      }
    } else {
      MulMono(0, top, b);
      if top >= 2 {
        MulMono(2, top, b);
      }
    }
  }

  lemma SubtractedTop(s: seq<int>, m: int, s1: seq<int>, carry: int)
    requires Subtracted(s, m, s1, carry)
    ensures var n := |s| - 1; var low := Val(s1[..n]); var r := Val(s) - m; var b := Pow(n);
            && 0 <= low < b
            && (0 <= r ==> carry == 0 && r == Val(s1))
            && (0 <= r < 2 * b ==> (s1[n] == 0 && r == low) || (s1[n] == 1 && r == low + b))
            && (-b < r < 0 ==> carry == 1 && r == low - b)
  {
    var n := |s| - 1;
    ValBounds(s1[..n]);
    ValTop(s1);
    TopCell(Val(s1[..n]), s1[n], carry, Pow(n), Val(s) - m);
  }

  lemma SmallSecond(low2: int, e: int, b2: int, b: int)
    requires b == 100 * b2 && 0 <= low2 && 5 * (low2 + e * b2) < b && b2 > 0
    ensures e < 20
  {
    if e >= 20 {
      MulMono(20, e, b2);
    }
  }

  /** Below the last position: no borrow, and the part to be merged down is small. */
  lemma AfterBelow(s: seq<int>, m: int, u: int, s1: seq<int>, carry: int)
    requires Subtracted(s, m, s1, carry) && |s| > 1
    requires 0 <= u < Pow(|s| - 1) && 0 <= Val(s) - m && 5 * (Val(s) - m) < 6 * u
    ensures carry == 0 && s1[|s1| - 1] <= 1 && Window(s1) && Val(s1) == Val(s) - m
    ensures s1[|s1| - 1] == 1 ==> s1[|s1| - 2] < 20
  {
    var n := |s| - 1;
    SubtractedTop(s, m, s1, carry);
    if s1[n] == 1 {
      ValPrefix(s1, n - 1);
      ValBounds(s1[..n - 1]);
      SmallSecond(Val(s1[..n - 1]), s1[n - 1], Pow(n - 1), Pow(n));
    }
  }

  /** At the last position: either a proper remainder, or one divisor too little. */
  lemma AfterLast(s: seq<int>, m: int, d: int, s1: seq<int>, carry: int)
    requires Subtracted(s, m, s1, carry)
    requires 0 < d < Pow(|s| - 1) && -d <= Val(s) - m < 2 * d
    ensures var r := Val(s) - m;
            if 0 <= r then carry == 0 && IsDigits(s1) && Val(s1) == r
            else carry == 1 && IsNum(s1[..|s| - 1] + [-1]) && Val(s1[..|s| - 1] + [-1]) == r
  {
    var n := |s| - 1;
    SubtractedTop(s, m, s1, carry);
    ValSnoc(s1[..n], -1);
  }

  /** Dropping the top cell after merging it down: the window gets one cell shorter. */
  function Merged(s1: seq<int>): seq<int>
    requires |s1| >= 2
  {
    var n := |s1| - 1;
    if s1[n] != 0 then s1[..n - 1] + [s1[n - 1] + 100] else s1[..n]
  }

  lemma MergedValue(s1: seq<int>)
    requires |s1| >= 2 && Window(s1) && s1[|s1| - 1] <= 1 && (s1[|s1| - 1] == 1 ==> s1[|s1| - 2] < 20)
    ensures Window(Merged(s1)) && |Merged(s1)| == |s1| - 1 && Val(Merged(s1)) == Val(s1)
  {
    var n := |s1| - 1;
    if s1[n] == 1 {
      MergeDown(s1[..n - 1], s1[n - 1]);
      assert s1 == s1[..n - 1] + [s1[n - 1]] + [1];
    } else {
      ValTop(s1);
    }
  }

  lemma MergeDown(low: seq<int>, e: int)
    ensures Val(low + [e + 100]) == Val(low + [e] + [1])
  {
    ValSnoc(low, e + 100);
    ValSnoc(low, e);
    ValSnoc(low + [e], 1);
    SumMul(e, 100, Pow(|low|));
  }

  // ---- the quotient built from the top down ----

  /** `a` is what is left, plus the divisor times the quotient digits from `k` up. */
  ghost predicate Quotient(a: int, d: int, p: seq<int>, k: nat, r: int)
  {
    && k <= |p|
    && (forall i :: k <= i < |p| ==> 0 <= p[i] <= 121)
    && a == r + d * (Pow(k) * Val(p[k..]))
  }

  lemma QuotientStep(a: int, d: int, p: seq<int>, k: nat, r: int, dig: int)
    requires Quotient(a, d, p, k + 1, r) && 0 <= dig <= 121
    ensures Quotient(a, d, p[k := dig], k, r - dig * (d * Pow(k)))
  {
    var p1 := p[k := dig];
    assert p1[k..] == [dig] + p[k + 1..];
    ValCons(dig, p[k + 1..]);
    var w, v := Pow(k), Val(p[k + 1..]);
    QuotientMul(d, w, dig, v);
    assert Pow(k + 1) == 100 * w;
    assert Val(p1[k..]) == dig + 100 * v;
    var x, y := d * ((100 * w) * v), dig * (d * w);
    assert a == r + x;
    assert d * (w * (dig + 100 * v)) == y + x;
  }

  lemma QuotientMul(d: int, w: int, dig: int, v: int)
    ensures d * (w * (dig + 100 * v)) == dig * (d * w) + d * ((100 * w) * v)
  {
    calc {
      d * (w * (dig + 100 * v));
      { assert w * (dig + 100 * v) == dig * w + (100 * w) * v; }
      d * (dig * w + (100 * w) * v);
      d * (dig * w) + d * ((100 * w) * v);
      { assert d * (dig * w) == dig * (d * w); }
      dig * (d * w) + d * ((100 * w) * v);
    }
  }

  /** The state at the head of the loop, with `k - 1` the position to be filled. */
  ghost predicate Dividing(a: int, d: seq<int>, p: seq<int>, k: nat, s: seq<int>)
  {
    && 1 <= k <= |p| && |s| == k + |d| && Window(s)
    && Val(s) < 120 * (Val(d) * Pow(k - 1))
    && Quotient(a, Val(d), p, k, Val(s))
  }

  // ---- the pieces of the loop body ----

  /** `sfbeg(b)?0:sbackc(b)` */
  method BackOrZero(b: Blk) returns (c: int)
    requires b.Valid() && b.rd <= b.wt
    modifies b`rd
    ensures b.Valid() && b.rd <= b.wt
    ensures c == Lead(b.Digits(), b.wt - old(b.rd))
    ensures b.rd == if old(b.rd) == 0 then 0 else old(b.rd) - 1
  {
    c := 0;
    if !b.SfBeg() {
      c := b.SbackC();
    }
  }

  /** The divisor's leading digits as the loop uses them: `c` and `magic`. */
  method GuessDivisor(divr: Blk) returns (c: int, magic: bool)
    requires divr.Valid() && divr.wt > 0 && IsDigits(divr.Digits())
    modifies divr`rd
    ensures divr.Valid() && divr.rd <= divr.wt
    ensures c == Guess(Top3(divr.Digits())) && magic == Magic(Top3(divr.Digits()))
  {
    divr.FsFile();
    c := divr.SbackC();
    magic := c < 10;
    var e := BackOrZero(divr);
    c := c * 100 + e;
    if magic {
      e := BackOrZero(divr);
      c := (c * 100 + e) * 2;
      c := c / 25;
    }
  }

  /** The next quotient digit, guessed from the top of the running dividend. */
  method GuessDigit(divd: Blk, c: int, magic: bool, last: bool, ghost c3: int) returns (dig: int, under: bool)
    requires divd.Valid() && divd.wt > 0
    requires c3 >= 10000 && c == Guess(c3) && magic == Magic(c3)
    modifies divd`rd
    ensures divd.Valid() && divd.rd <= divd.wt
    ensures dig == Digit(c3, Top3(divd.Digits()), last)
    ensures under == Under(c3, Top3(divd.Digits()), last)
  {
    divd.FsFile();
    var td := divd.SbackC();
    td := td * 100;
    var dd := BackOrZero(divd);
    td := (td + dd) * 100;
    dd := BackOrZero(divd);
    td := td + dd;
    var cc := c;
    if last {
      td := td + 1;
    } else {
      cc := cc + 1;
    }
    if magic {
      td := td * 8;
    }
    assert td == Numerator(c3, Top3(divd.Digits()), last) && cc == Denominator(c3, last);
    dig := td / cc;
    under := false;
    if td % cc < 8 && dig > 0 && magic {
      dig := dig - 1;
      under := true;
    }
  }

  /** The divisor's low `i` digits times `dig`, with the carry above them. */
  ghost predicate Multiplied(d: seq<int>, dig: int, i: nat, x: seq<int>, carry: int)
  {
    && i <= |d| && |x| == i && IsDigits(x) && 0 <= carry <= 121
    && Val(x) + carry * Pow(i) == dig * Val(d[..i])
  }

  lemma MultipliedStep(d: seq<int>, dig: int, i: nat, x: seq<int>, carry: int, e: int, carry': int)
    requires Multiplied(d, dig, i, x, carry) && i < |d|
    requires d[i] * dig + carry == e + 100 * carry'
    requires 0 <= e <= 99 && 0 <= carry' <= 121
    ensures Multiplied(d, dig, i + 1, x + [e], carry')
  {
    ValSnoc(x, e);
    ValPrefix(d, i);
    ColumnMul(d[i] * dig, carry, 0, e, carry', Pow(i));
    ProductMul(dig, Val(d[..i]), d[i], Pow(i));
  }

  lemma MultipliedDone(d: seq<int>, dig: int, x: seq<int>, carry: int)
    requires Multiplied(d, dig, |d|, x, carry)
    ensures Val(x + [carry]) == dig * Val(d)
  {
    ValSnoc(x, carry);
    assert d[..|d|] == d;
  }

  /** `divxyz = divr * dig`, written over whatever `divxyz` held before. */
  method MulByDigit(divr: Blk, divxyz: Blk, dig: int)
    requires divr.Valid() && divxyz.Valid() && divr != divxyz
    requires IsDigits(divr.Digits()) && 0 <= dig <= 121
    modifies divr`rd, divxyz
    ensures divr.Valid() && divr.rd <= divr.wt && divxyz.Valid() && divxyz.rd == 0
    ensures divxyz.wt > divr.wt
    ensures IsDigits(divxyz.Digits()[..divr.wt]) && 0 <= divxyz.Digits()[divr.wt] <= 121
    ensures Val(divxyz.Digits()[..divr.wt + 1]) == dig * Val(divr.Digits())
  {
    ghost var d := divr.Digits();
    divr.Rewind();
    divxyz.Rewind();
    var carry := 0;
    assert d[..0] == [];
    while !divr.SfEof()
      invariant divr.Valid() && divxyz.Valid() && divr.rd == divxyz.rd <= divr.wt && divxyz.rd <= divxyz.wt
      invariant Multiplied(d, dig, divr.rd, divxyz.Digits()[..divr.rd], carry)
      decreases divr.wt - divr.rd
    {
      ghost var i, x, c0 := divr.rd, divxyz.Digits()[..divr.rd], carry;
      var g := divr.SgetC();
      var e := g * dig + carry;
      assert 0 <= e <= 99 * 121 + 121 by {
        MulMono2(0, g, 0, dig);
        MulMono2(g, 99, dig, 121);
      }
      carry := e / 100;
      divxyz.SalterC(e % 100);
      MultipliedStep(d, dig, i, x, c0, e % 100, carry);
      assert divxyz.Digits()[..i + 1] == x + [e % 100];
    }
    ghost var x := divxyz.Digits()[..|d|];
    MultipliedDone(d, dig, x, carry);
    divxyz.SalterC(carry);
    assert divxyz.Digits()[..|d| + 1] == x + [carry];
    divxyz.Rewind();
  }

  /** `x` has been subtracted from `s` at positions `off` to `i - 1`, giving `s1` and a borrow. */
  ghost predicate Subtracting(s: seq<int>, x: seq<int>, off: nat, i: nat, s1: seq<int>, carry: int)
  {
    && off <= i <= |s| == |s1| && i - off <= |x| && 0 <= carry <= 1
    && s1[i..] == s[i..]
    && (forall j :: 0 <= j < i && j < |s| - 1 ==> 0 <= s1[j] <= 99)
    && (i == |s| > 0 ==> if carry == 0 then 0 <= s1[i - 1] <= 127 else -128 <= s1[i - 1] < 100)
    && Val(s1) - carry * Pow(i) == Val(s) - Val(x[..i - off]) * Pow(off)
  }

  lemma BorrowMul(e: int, a: int, g: int, c0: int, c1: int, w: int)
    requires e == a - g - c0 + 100 * c1
    ensures (e - a) * w - c1 * (100 * w) == -(g * w) - c0 * w
  {
    assert (e - a) * w == (100 * c1 - g - c0) * w;
  }

  lemma SubtractingStep(s: seq<int>, x: seq<int>, off: nat, i: nat, s1: seq<int>, c0: int, e: int, c1: int)
    requires Window(s) && Subtracting(s, x, off, i, s1, c0) && i < |s| && i - off < |x|
    requires e == s[i] - x[i - off] - c0 + 100 * c1 && 0 <= c1 <= 1
    requires i < |s| - 1 ==> 0 <= e <= 99
    requires if c1 == 0 then 0 <= e <= 127 else -128 <= e < 100
    ensures Subtracting(s, x, off, i + 1, s1[i := e], c1)
  {
    var k := i - off;
    assert s1[i] == s1[i..][0] == s[i];
    assert s1[i := e][i + 1..] == s1[i..][1..];
    ValUpdate(s1, i, e);
    ValPrefix(x, k);
    PowAdd(k, off);
    BorrowMul(e, s[i], x[k], c0, c1, Pow(i));
    SumMul(Val(x[..k]), x[k] * Pow(k), Pow(off));
    Assoc(x[k], Pow(k), Pow(off));
  }

  /** What the next two cells hold. */
  lemma SubtractingCell(s: seq<int>, x: seq<int>, off: nat, i: nat, s1: seq<int>, c0: int)
    requires Window(s) && Subtracting(s, x, off, i, s1, c0) && i < |s| <= off + |x|
    requires IsDigits(x[..|s| - off - 1]) && 0 <= x[|s| - off - 1] <= 121
    ensures s1[i] == s[i] && 0 <= s1[i] <= 127 && 0 <= x[i - off] <= 121
    ensures i < |s| - 1 ==> s1[i] <= 99 && x[i - off] <= 99
  {
    assert s1[i] == s1[i..][0] == s[i];
    assert i < |s| - 1 ==> x[i - off] == x[..|s| - off - 1][i - off];
  }

  lemma SubtractingStart(s: seq<int>, x: seq<int>, off: nat)
    requires Window(s) && off < |s|
    ensures Subtracting(s, x, off, off, s, 0)
  {
    assert x[..0] == [];
  }

  lemma SubtractingDone(s: seq<int>, x: seq<int>, off: nat, s1: seq<int>, carry: int)
    requires Window(s) && off < |s| && Subtracting(s, x, off, |s|, s1, carry)
    ensures Subtracted(s, Val(x[..|s| - off]) * Pow(off), s1, carry)
  {
  }

  /** The body of the subtraction loop. */
  method SubtractCell(divd: Blk, divxyz: Blk, carry: int) returns (ghost e: int, carry': int)
    requires divd.Valid() && divxyz.Valid() && divd != divxyz
    requires divd.rd < divd.wt && divxyz.rd < divxyz.wt
    requires 0 <= divd.Digits()[divd.rd] <= 127 && 0 <= divxyz.Digits()[divxyz.rd] <= 121
    requires 0 <= carry <= 1
    modifies divd, divxyz`rd
    ensures divd.Valid() && divxyz.Valid() && divd.wt == old(divd.wt)
    ensures divd.rd == old(divd.rd) + 1 && divxyz.rd == old(divxyz.rd) + 1
    ensures divd.Digits() == old(divd.Digits())[old(divd.rd) := e]
    ensures e == old(divd.Digits()[divd.rd]) - old(divxyz.Digits()[divxyz.rd]) - carry + 100 * carry'
    ensures if carry' == 0 then 0 <= e <= 127 else carry' == 1 && -128 <= e < 100
    ensures old(divd.Digits()[divd.rd]) <= 99 && old(divxyz.Digits()[divxyz.rd]) <= 99 ==> 0 <= e <= 99
  {
    var d := divd.SlookC();
    var g := NextOrZero(divxyz);
    d := d - g - carry;
    carry' := 0;
    if d < 0 {
      d := d + 100;
      carry' := 1;
    }
    divd.SalterC(d);
    e := d;
  }

  /** One cell of the subtraction, seen on the whole strings. */
  method SubtractNext(divd: Blk, divxyz: Blk, carry: int, ghost s: seq<int>, ghost x: seq<int>, ghost off: nat)
      returns (carry': int)
    requires divd.Valid() && divxyz.Valid() && divd != divxyz && x == divxyz.Digits() && Window(s)
    requires off <= divd.rd < divd.wt == |s| && divxyz.rd == divd.rd - off && |s| <= off + |x|
    requires IsDigits(x[..|s| - off - 1]) && 0 <= x[|s| - off - 1] <= 121
    requires Subtracting(s, x, off, divd.rd, divd.Digits(), carry)
    modifies divd, divxyz`rd
    ensures divd.Valid() && divxyz.Valid() && divd.wt == |s|
    ensures divd.rd == old(divd.rd) + 1 && divxyz.rd == divd.rd - off
    ensures Subtracting(s, x, off, divd.rd, divd.Digits(), carry')
  {
    ghost var i, s1 := divd.rd, divd.Digits();
    SubtractingCell(s, x, off, i, s1, carry);
    ghost var e;
    e, carry' := SubtractCell(divd, divxyz, carry);
    SubtractingStep(s, x, off, i, s1, carry, e, carry');
  }

  /** `divd -= divxyz` at `offset`, returning the borrow out of the top. */
  method SubtractAt(divd: Blk, divxyz: Blk, offset: nat) returns (carry: int)
    requires divd.Valid() && divxyz.Valid() && divd != divxyz && divxyz.rd == 0
    requires Window(divd.Digits()) && offset < divd.wt && divxyz.wt >= divd.wt - offset
    requires IsDigits(divxyz.Digits()[..divd.wt - offset - 1])
    requires 0 <= divxyz.Digits()[divd.wt - offset - 1] <= 121
    modifies divd, divxyz`rd
    ensures divd.Valid() && divxyz.Valid() && divd.rd == divd.wt == old(divd.wt)
    ensures Subtracted(old(divd.Digits()), Val(divxyz.Digits()[..divd.wt - offset]) * Pow(offset), divd.Digits(), carry)
  {
    ghost var s, x := divd.Digits(), divxyz.Digits();
    divd.SeekC(offset);
    assert divd.Digits() == s;
    SubtractingStart(s, x, offset);
    carry := 0;
    while !divd.SfEof()
      invariant divd.Valid() && divxyz.Valid() && divd.wt == |s|
      invariant offset <= divd.rd <= divd.wt && divxyz.rd == divd.rd - offset
      invariant Subtracting(s, x, offset, divd.rd, divd.Digits(), carry)
      decreases divd.wt - divd.rd
    {
      carry := SubtractNext(divd, divxyz, carry, s, x, offset);
    }
    SubtractingDone(s, x, offset, divd.Digits(), carry);
  }

  // ---- one position, and the loop over positions ----

  lemma Unscale(dig: int, v: int, k: int)
    ensures dig * (k * v) == k * (dig * v)
  {
  }

  /** The error analysis, restated on digit strings: below the last position. */
  lemma DigitBelow(d: seq<int>, s: seq<int>, off: nat)
    requires IsDigits(d) && |d| > 0 && d[|d| - 1] != 0
    requires Window(s) && |s| == off + |d| + 1 && Val(s) < 120 * (Val(d) * Pow(off))
    ensures Top3(d) >= 10000
    ensures var dig := Digit(Top3(d), Top3(s), false); var u := Val(d) * Pow(off);
            0 <= dig <= 120 && dig * u <= Val(s) && 5 * (Val(s) - dig * u) < 6 * u
  {
    WindowBracketed(d, s, off);
    var u := Val(d) * Pow(off);
    StepBelow(Top3(d), Top3(s), Pow(|d| - 1 + off), 10000 * u, 10000 * Val(s));
    Unscale(Digit(Top3(d), Top3(s), false), u, 10000);
  }

  /** The error analysis, restated on digit strings: at the last position. */
  lemma DigitLast(d: seq<int>, s: seq<int>)
    requires IsDigits(d) && |d| > 0 && d[|d| - 1] != 0
    requires Window(s) && |s| == |d| + 1 && Val(s) < 120 * (Val(d) * Pow(0))
    ensures Top3(d) >= 10000
    ensures var dig := Digit(Top3(d), Top3(s), true); var r := Val(s) - dig * Val(d);
            && 0 <= dig <= 120 && (r < 0 ==> dig > 0)
            && (if Under(Top3(d), Top3(s), true) then 0 <= r < 2 * Val(d) else -Val(d) <= r < Val(d))
  {
    WindowBracketed(d, s, 0);
    var u := Val(d);
    assert Val(d) * Pow(0) == u;
    StepLast(Top3(d), Top3(s), Pow(|d| - 1), 10000 * u, 10000 * Val(s));
    Unscale(Digit(Top3(d), Top3(s), true), u, 10000);
  }

  /** One position below the last keeps the loop invariant. */
  lemma DividingStep(a: int, d: seq<int>, p: seq<int>, off: nat, s: seq<int>, s1: seq<int>, carry: int, dig: int)
    requires IsDigits(d) && |d| > 0 && d[|d| - 1] != 0
    requires Dividing(a, d, p, off + 1, s) && off > 0 && Top3(d) >= 10000
    requires dig == Digit(Top3(d), Top3(s), false)
    requires Subtracted(s, dig * (Val(d) * Pow(off)), s1, carry)
    ensures carry == 0 && s1[|s1| - 1] <= 1 && (s1[|s1| - 1] != 0 ==> s1[|s1| - 2] < 20)
    ensures Window(s1) && Dividing(a, d, p[off := dig], off, Merged(s1))
  {
    var u := Val(d) * Pow(off);
    DigitBelow(d, s, off);
    DivisorFits(d, off);
    AfterBelow(s, dig * u, u, s1, carry);
    MergedValue(s1);
    QuotientStep(a, Val(d), p, off, Val(s), dig);
    assert Pow(off) == 100 * Pow(off - 1);
    Unscale(Val(d), Pow(off - 1), 100);
  }

  /** What the loop leaves when it has filled the last position. */
  ghost predicate Finished(a: int, d: seq<int>, p: seq<int>, s1: seq<int>, dig: int, under: bool, carry: int)
  {
    && |p| > 0 && p[0] == dig && 0 <= dig <= 120 && |s1| == |d| + 1
    && exists r: int {:trigger Quotient(a, Val(d), p, 0, r)} ::
       && Quotient(a, Val(d), p, 0, r)
       && (if under then 0 <= r < 2 * Val(d) else -Val(d) <= r < Val(d))
       && (if 0 <= r then carry == 0 && IsDigits(s1) && Val(s1) == r
           else carry == 1 && dig > 0 && IsNum(s1[..|d|] + [-1]) && Val(s1[..|d|] + [-1]) == r)
  }

  lemma FinishedStep(a: int, d: seq<int>, p: seq<int>, s: seq<int>, s1: seq<int>, carry: int, dig: int)
    requires IsDigits(d) && |d| > 0 && d[|d| - 1] != 0
    requires Dividing(a, d, p, 1, s) && Top3(d) >= 10000
    requires dig == Digit(Top3(d), Top3(s), true)
    requires Subtracted(s, dig * (Val(d) * Pow(0)), s1, carry)
    ensures Finished(a, d, p[0 := dig], s1, dig, Under(Top3(d), Top3(s), true), carry)
  {
    DigitLast(d, s);
    ValFloor(d);
    assert Val(d) * Pow(0) == Val(d);
    var m := dig * (Val(d) * Pow(0));
    AfterLast(s, m, Val(d), s1, carry);
    QuotientStep(a, Val(d), p, 0, Val(s), dig);
    assert Quotient(a, Val(d), p[0 := dig], 0, Val(s) - m);
  }

  /** Guess, multiply and subtract at one position, and store the quotient digit. */
  method DivPosition(divd: Blk, divr: Blk, divxyz: Blk, p: Blk, offset: nat, c: int, magic: bool)
      returns (dig: int, under: bool, carry: int)
    requires divd.Valid() && divr.Valid() && divxyz.Valid() && p.Valid()
    requires divd != divr && divd != divxyz && divd != p && divr != divxyz && divr != p && divxyz != p
    requires IsDigits(divr.Digits()) && divr.wt > 0 && divr.Digits()[divr.wt - 1] != 0
    requires c == Guess(Top3(divr.Digits())) && magic == Magic(Top3(divr.Digits()))
    requires Window(divd.Digits()) && divd.wt == offset + divr.wt + 1
    requires Val(divd.Digits()) < 120 * (Val(divr.Digits()) * Pow(offset))
    requires p.rd == offset + 1 <= p.wt
    modifies divd, divr`rd, divxyz, p
    ensures divd.Valid() && divr.Valid() && divxyz.Valid() && p.Valid()
    ensures divd.wt == old(divd.wt) && divr.rd <= divr.wt
    ensures p.rd == offset && p.Digits() == old(p.Digits())[offset := dig]
    ensures Top3(divr.Digits()) >= 10000
    ensures dig == Digit(Top3(divr.Digits()), old(Top3(divd.Digits())), offset == 0)
    ensures under == Under(Top3(divr.Digits()), old(Top3(divd.Digits())), offset == 0)
    ensures Subtracted(old(divd.Digits()), dig * (Val(divr.Digits()) * Pow(offset)), divd.Digits(), carry)
  {
    ghost var d, s := divr.Digits(), divd.Digits();
    if offset == 0 {
      DigitLast(d, s);
    } else {
      DigitBelow(d, s, offset);
    }
    dig, under := GuessDigit(divd, c, magic, offset == 0, Top3(d));
    MulByDigit(divr, divxyz, dig);
    assert divxyz.Digits()[..divr.wt + 1][..divr.wt] == divxyz.Digits()[..divr.wt];
    carry := SubtractAt(divd, divxyz, offset);
    Assoc(dig, Val(d), Pow(offset));
    p.BackC();
    p.SalterC(dig);
    p.BackC();
  }

  /** The running dividend one cell shorter, its top cell merged down as `+ 100`. */
  method MergeTop(divd: Blk)
    requires divd.Valid() && divd.wt >= 2 && Window(divd.Digits())
    requires divd.Digits()[divd.wt - 1] <= 1
    requires divd.Digits()[divd.wt - 1] != 0 ==> divd.Digits()[divd.wt - 2] < 20
    modifies divd
    ensures divd.Valid() && divd.Digits() == Merged(old(divd.Digits()))
  {
    ghost var s1 := divd.Digits();
    divd.FsFile();
    var d := divd.SbackC();
    if d != 0 {
      d := divd.SbackC();
      d := d + 100;
      divd.SalterC(d);
    }
    divd.wt := divd.wt - 1;
    assert divd.Digits() == Merged(s1);
  }

  /** A pass of the loop at a position below the last. */
  method DivBelow(divd: Blk, divr: Blk, divxyz: Blk, p: Blk, offset: nat, c: int, magic: bool, ghost a: int)
    requires divd.Valid() && divr.Valid() && divxyz.Valid() && p.Valid()
    requires divd != divr && divd != divxyz && divd != p && divr != divxyz && divr != p && divxyz != p
    requires IsDigits(divr.Digits()) && divr.wt > 0 && divr.Digits()[divr.wt - 1] != 0
    requires c == Guess(Top3(divr.Digits())) && magic == Magic(Top3(divr.Digits()))
    requires offset > 0 && p.rd == offset + 1
    requires Dividing(a, divr.Digits(), p.Digits(), offset + 1, divd.Digits())
    modifies divd, divr`rd, divxyz, p
    ensures divd.Valid() && divr.Valid() && divxyz.Valid() && p.Valid()
    ensures p.rd == offset && p.wt == old(p.wt)
    ensures Dividing(a, divr.Digits(), p.Digits(), offset, divd.Digits())
  {
    ghost var d, s, q := divr.Digits(), divd.Digits(), p.Digits();
    var dig, under, carry := DivPosition(divd, divr, divxyz, p, offset, c, magic);
    DividingStep(a, d, q, offset, s, divd.Digits(), carry, dig);
    MergeTop(divd);
  }

  /** The last pass of the loop: nothing is merged or dropped afterwards. */
  method DivLast(divd: Blk, divr: Blk, divxyz: Blk, p: Blk, c: int, magic: bool, ghost a: int)
      returns (dig: int, under: bool, carry: int)
    requires divd.Valid() && divr.Valid() && divxyz.Valid() && p.Valid()
    requires divd != divr && divd != divxyz && divd != p && divr != divxyz && divr != p && divxyz != p
    requires IsDigits(divr.Digits()) && divr.wt > 0 && divr.Digits()[divr.wt - 1] != 0
    requires c == Guess(Top3(divr.Digits())) && magic == Magic(Top3(divr.Digits()))
    requires p.rd == 1
    requires Dividing(a, divr.Digits(), p.Digits(), 1, divd.Digits())
    modifies divd, divr`rd, divxyz, p
    ensures divd.Valid() && divr.Valid() && divxyz.Valid() && p.Valid() && p.rd == 0
    ensures divd.rd == divr.wt && divd.wt == divr.wt + 1
    ensures Finished(a, divr.Digits(), p.Digits(), divd.Digits(), dig, under, carry)
  {
    ghost var d, s, q := divr.Digits(), divd.Digits(), p.Digits();
    dig, under, carry := DivPosition(divd, divr, divxyz, p, 0, c, magic);
    FinishedStep(a, d, q, s, divd.Digits(), carry, dig);
    divd.FsFile();
    divd.BackC();
  }

  /** The position loop of `div`, from the top offset down to zero. */
  method DivLoop(divd: Blk, divr: Blk, divxyz: Blk, p: Blk, top: nat, ghost a: int)
      returns (dig: int, under: bool, carry: int)
    requires divd.Valid() && divr.Valid() && divxyz.Valid() && p.Valid()
    requires divd != divr && divd != divxyz && divd != p && divr != divxyz && divr != p && divxyz != p
    requires IsDigits(divr.Digits()) && divr.wt > 0 && divr.Digits()[divr.wt - 1] != 0
    requires p.rd == p.wt == top + 1
    requires Dividing(a, divr.Digits(), p.Digits(), top + 1, divd.Digits())
    modifies divd, divr`rd, divxyz, p
    ensures divd.Valid() && divr.Valid() && divxyz.Valid() && p.Valid() && p.rd == 0
    ensures divd.rd == divr.wt && divd.wt == divr.wt + 1
    ensures Finished(a, divr.Digits(), p.Digits(), divd.Digits(), dig, under, carry)
  {
    var c, magic := GuessDivisor(divr);
    var offset := top;
    while offset > 0
      invariant divd.Valid() && divr.Valid() && divxyz.Valid() && p.Valid()
      invariant offset <= top && p.rd == offset + 1
      invariant Dividing(a, divr.Digits(), p.Digits(), offset + 1, divd.Digits())
    {
      DivBelow(divd, divr, divxyz, p, offset, c, magic, a);
      offset := offset - 1;
    }
    dig, under, carry := DivLast(divd, divr, divxyz, p, c, magic, a);
  }

  // ---- after the loop: repair, carry, trim ----

  /** Quotient digits that may still exceed 99, and a true remainder. */
  ghost predicate Divided(a: int, d: int, p: seq<int>, r: int)
  {
    && (forall i :: 0 <= i < |p| ==> 0 <= p[i] <= 121)
    && a == r + d * Val(p) && 0 <= r < d
  }

  lemma QuotientBump(a: int, d: int, p: seq<int>, r: int, e: int, r1: int)
    requires Quotient(a, d, p, 0, r) && |p| > 0 && 0 <= p[0] + e <= 121
    requires r1 == r - e * d && 0 <= r1 < d
    ensures Divided(a, d, p[0 := p[0] + e], r1)
  {
    assert p[0..] == p && Pow(0) == 1;
    ValUpdate(p, 0, p[0] + e);
    assert d * (Val(p) + e) == d * Val(p) + e * d;
  }

  lemma QuotientKept(a: int, d: int, p: seq<int>, r: int)
    requires Quotient(a, d, p, 0, r) && 0 <= r < d
    ensures Divided(a, d, p, r)
  {
    assert p[0..] == p && Pow(0) == 1;
  }

  /** `divd - divr`, and whether it fell below zero. */
  method TakeDivisor(divd: Blk, divr: Blk) returns (ps: Blk, short: bool)
    requires divd.Valid() && divr.Valid() && IsDigits(divr.Digits()) && IsDigits(divd.Digits())
    modifies divd`rd
    ensures divd.Valid() && ps.Valid() && fresh(ps)
    ensures Val(ps.Digits()) == Val(divd.Digits()) - Val(divr.Digits())
    ensures short <==> Val(ps.Digits()) < 0
    ensures !short ==> IsDigits(ps.Digits())
  {
    var px := new Blk.Copy(divr);
    ChSign(px);
    ps := Add(px, divd);
    ValSign(ps.Digits());
    ps.FsFile();
    var t := 0;
    if ps.wt > 0 {
      t := ps.SbackC();
    }
    short := t < 0;
  }

  /** The guess was lowered: put it back up if a whole divisor is still left. */
  method RepairUp(divd: Blk, divr: Blk, p: Blk, dig: int, ghost a: int) returns (r: Blk)
    requires divd.Valid() && divr.Valid() && p.Valid() && divd != p && divr != p
    requires IsDigits(divr.Digits()) && IsDigits(divd.Digits())
    requires p.rd == 0 && p.wt > 0 && p.Digits()[0] == dig && 0 <= dig <= 120
    requires Quotient(a, Val(divr.Digits()), p.Digits(), 0, Val(divd.Digits()))
    requires 0 <= Val(divd.Digits()) < 2 * Val(divr.Digits())
    modifies divd`rd, p
    ensures p.Valid() && divd.Valid() && r.Valid() && (r == divd || fresh(r)) && IsDigits(r.Digits())
    ensures Divided(a, Val(divr.Digits()), p.Digits(), Val(r.Digits()))
  {
    ghost var d, q, x := Val(divr.Digits()), p.Digits(), Val(divd.Digits());
    var ps, short := TakeDivisor(divd, divr);
    if short {
      QuotientKept(a, d, q, x);
      r := divd;
    } else {
      QuotientBump(a, d, q, x, 1, Val(ps.Digits()));
      p.SalterC(dig + 1);
      r := ps;
    }
  }

  /** The guess was one too large: the borrow says so, and one divisor goes back in. */
  method RepairDown(divd: Blk, divr: Blk, p: Blk, dig: int, ghost a: int, ghost x: int) returns (r: Blk)
    requires divd.Valid() && divr.Valid() && p.Valid() && divd != divr && divd != p && divr != p
    requires IsDigits(divr.Digits()) && divd.rd == divr.wt && divd.wt == divr.wt + 1
    requires IsNum(divd.Digits()[..divr.wt] + [-1]) && Val(divd.Digits()[..divr.wt] + [-1]) == x
    requires p.rd == 0 && p.wt > 0 && p.Digits()[0] == dig && 0 < dig <= 120
    requires Quotient(a, Val(divr.Digits()), p.Digits(), 0, x) && -Val(divr.Digits()) <= x < 0
    modifies divd, divr`rd, p
    ensures p.Valid() && divr.Valid() && r.Valid() && fresh(r) && IsDigits(r.Digits())
    ensures Divided(a, Val(divr.Digits()), p.Digits(), Val(r.Digits()))
  {
    ghost var s1, q := divd.Digits(), p.Digits();
    p.SalterC(dig - 1);
    divd.SalterC(-1);
    assert divd.Digits() == s1[..divr.wt] + [-1];
    r := Add(divr, divd);
    ValSign(r.Digits());
    QuotientBump(a, Val(divr.Digits()), q, x, -1, Val(r.Digits()));
  }

  /** The two corrections of the last digit, at most one of which applies. */
  method Repair(divd: Blk, divr: Blk, p: Blk, dig: int, under: bool, carry: int, ghost a: int) returns (r: Blk)
    requires divd.Valid() && divr.Valid() && p.Valid() && divd != divr && divd != p && divr != p
    requires IsDigits(divr.Digits()) && p.rd == 0 && divd.rd == divr.wt && divd.wt == divr.wt + 1
    requires Finished(a, divr.Digits(), p.Digits(), divd.Digits(), dig, under, carry)
    modifies divd, divr`rd, p
    ensures p.Valid() && divr.Valid() && r.Valid() && (r == divd || fresh(r)) && IsDigits(r.Digits())
    ensures Divided(a, Val(divr.Digits()), p.Digits(), Val(r.Digits()))
  {
    ghost var d, s1 := divr.Digits(), divd.Digits();
    ghost var x :| Quotient(a, Val(d), p.Digits(), 0, x)
       && (if under then 0 <= x < 2 * Val(d) else -Val(d) <= x < Val(d))
       && (if 0 <= x then carry == 0 && IsDigits(s1) && Val(s1) == x
           else carry == 1 && dig > 0 && IsNum(s1[..|d|] + [-1]) && Val(s1[..|d|] + [-1]) == x);
    r := divd;
    if under {
      r := RepairUp(divd, divr, p, dig, a);
    }
    if carry != 0 {
      r := RepairDown(r, divr, p, dig, a, x);
    } else if !under {
      QuotientKept(a, Val(d), p.Digits(), x);
    }
  }

  /** The low `i` quotient digits have been brought below 100. */
  ghost predicate Carried(q: seq<int>, i: nat, x: seq<int>, carry: int)
  {
    && i <= |q| == |x| && 0 <= carry <= 1 && x[i..] == q[i..] && IsDigits(x[..i])
    && Val(x) + carry * Pow(i) == Val(q)
  }

  lemma CarriedStep(q: seq<int>, i: nat, x: seq<int>, c0: int, e: int, c1: int)
    requires Carried(q, i, x, c0) && i < |q| && 0 <= e <= 99 && 0 <= c1 <= 1
    requires q[i] + c0 == e + 100 * c1
    ensures Carried(q, i + 1, x[i := e], c1)
  {
    assert x[i] == x[i..][0] == q[i];
    assert x[i := e][i + 1..] == x[i..][1..];
    assert x[i := e][..i + 1] == x[..i] + [e];
    ValUpdate(x, i, e);
    CarryMul(e, q[i], c0, c1, Pow(i));
  }

  lemma CarryMul(e: int, a: int, c0: int, c1: int, w: int)
    requires a + c0 == e + 100 * c1
    ensures (e - a) * w + c1 * (100 * w) == c0 * w
  {
    assert (e - a) * w + (100 * c1) * w == (e - a + 100 * c1) * w;
  }

  /** The carry pass over the quotient. */
  method CarryQuotient(p: Blk)
    requires p.Valid() && (forall i :: 0 <= i < p.wt ==> 0 <= p.Digits()[i] <= 121)
    modifies p
    ensures p.Valid() && IsDigits(p.Digits()) && Val(p.Digits()) == Val(old(p.Digits()))
  {
    ghost var q := p.Digits();
    p.Rewind();
    var divcarry := 0;
    while !p.SfEof()
      invariant p.Valid() && p.rd <= p.wt == |q|
      invariant Carried(q, p.rd, p.Digits(), divcarry)
      decreases p.wt - p.rd
    {
      ghost var i, x, c0 := p.rd, p.Digits(), divcarry;
      assert x[i] == x[i..][0] == q[i];
      var d := p.SlookC() + divcarry;
      divcarry := 0;
      if d >= 100 {
        d := d - 100;
        divcarry := 1;
      }
      p.SalterC(d);
      CarriedStep(q, i, x, c0, d, divcarry);
    }
    assert p.Digits()[..|q|] == p.Digits();
    if divcarry != 0 {
      ValSnoc(p.Digits(), divcarry);
      p.SalterC(divcarry);
    }
  }

  /** The loop that strips leading zeros off quotient and remainder. */
  method StripZeros(p: Blk)
    requires p.Valid()
    modifies p
    ensures p.Valid() && p.Digits() == TrimZeros(old(p.Digits()))
  {
    ghost var s := p.Digits();
    p.FsFile();
    while !p.SfBeg()
      invariant p.Valid() && p.rd == p.wt <= |s|
      invariant p.Digits() == s[..p.wt] && TrimZeros(s) == TrimZeros(s[..p.wt])
      decreases p.rd
    {
      ghost var t := s[..p.wt];
      var c := p.SbackC();
      if c != 0 {
        break;
      }
      assert t[..|t| - 1] == s[..p.wt - 1];
      p.Truncate();
    }
  }

  // ---- div ----

  /** The loop invariant holds before the first position, with a zero put on top. */
  lemma DividingStart(t: seq<int>, d: seq<int>, p: seq<int>)
    requires IsDigits(t) && IsDigits(d) && 0 < |d| <= |t| && d[|d| - 1] != 0
    requires |p| == |t| - |d| + 1
    ensures Val(t + [0]) == Val(t)
    ensures Dividing(Val(t), d, p, |p|, t + [0])
  {
    var off := |t| - |d|;
    ValSnoc(t, 0);
    ValBounds(t);
    ValFloor(d);
    PowAdd(|d| - 1, off);
    MulMono(Pow(|d| - 1), Val(d), Pow(off));
    assert p[|p|..] == [];
  }

  /** Division of magnitudes when the dividend is at least as long as the divisor. */
  method DivLong(divd: Blk, divr: Blk, divxyz: Blk, p: Blk) returns (r: Blk)
    requires divd.Valid() && divr.Valid() && divxyz.Valid() && p.Valid() && p.wt == 0
    requires divd != divr && divd != divxyz && divr != divxyz && p != divd && p != divr && p != divxyz
    requires IsDigits(divd.Digits()) && IsDigits(divr.Digits()) && 0 < divr.wt <= divd.wt
    requires divr.Digits()[divr.wt - 1] != 0
    modifies divd, divr`rd, divxyz, p
    ensures p.Valid() && r.Valid() && divr.Valid() && divxyz.Valid() && (r == divd || fresh(r))
    ensures IsDigits(r.Digits())
    ensures Divided(old(Val(divd.Digits())), Val(divr.Digits()), p.Digits(), Val(r.Digits()))
  {
    ghost var t := divd.Digits();
    var offset := divd.wt - divr.wt;
    p.SeekC(offset + 1);
    divd.SputC(0);
    DividingStart(t, divr.Digits(), p.Digits());
    var dig, under, carry := DivLoop(divd, divr, divxyz, p, offset, Val(t));
    r := Repair(divd, divr, p, dig, under, carry, Val(t));
  }

  /** Quotient and remainder of non-negative numbers. */
  ghost predicate NatDiv(a: int, d: int, q: int, r: int)
  {
    a == r + d * q && 0 <= r < d
  }

  /** Division of magnitudes; `divd` is consumed. */
  method DivDigits(divd: Blk, divr: Blk, divxyz: Blk) returns (p: Blk, r: Blk)
    requires divd.Valid() && divr.Valid() && divxyz.Valid()
    requires divd != divr && divd != divxyz && divr != divxyz
    requires IsDigits(divd.Digits()) && IsDigits(divr.Digits()) && divr.wt > 0
    requires divr.Digits()[divr.wt - 1] != 0
    modifies divd, divr`rd, divxyz
    ensures p.Valid() && r.Valid() && divr.Valid() && divxyz.Valid()
    ensures fresh(p) && (r == divd || fresh(r)) && p != r
    ensures Canonical(p.Digits()) && IsDigits(p.Digits()) && IsDigits(r.Digits())
    ensures NatDiv(old(Val(divd.Digits())), Val(divr.Digits()), Val(p.Digits()), Val(r.Digits()))
    ensures old(Canonical(divd.Digits())) || old(divd.wt) >= divr.wt ==> Canonical(r.Digits())
  {
    p := new Blk.Salloc(0);
    if divd.wt < divr.wt {
      ShortDividend(divd.Digits(), divr.Digits());
      assert p.Digits() == [];
      r := divd;
    } else {
      r := DivLong(divd, divr, divxyz, p);
      Tidy(p, r);
    }
  }

  lemma ShortDividend(t: seq<int>, d: seq<int>)
    requires IsDigits(t) && IsDigits(d) && |t| < |d| && d[|d| - 1] != 0
    ensures NatDiv(Val(t), Val(d), Val([]), Val(t))
  {
    ValBounds(t);
    ValFloor(d);
    PowMono(|t|, |d| - 1);
  }

  /** Carries through the quotient and strips leading zeros off both results. */
  method Tidy(p: Blk, r: Blk)
    requires p.Valid() && r.Valid() && p != r && IsDigits(r.Digits())
    requires forall i :: 0 <= i < p.wt ==> 0 <= p.Digits()[i] <= 121
    modifies p, r
    ensures p.Valid() && r.Valid() && IsDigits(p.Digits()) && IsDigits(r.Digits())
    ensures Canonical(p.Digits()) && Canonical(r.Digits())
    ensures Val(p.Digits()) == old(Val(p.Digits())) && Val(r.Digits()) == old(Val(r.Digits()))
  {
    CarryQuotient(p);
    StripZeros(p);
    StripZeros(r);
  }

  function Abs(x: int): int {
    if x < 0 then -x else x
  }

  /** Division that truncates toward zero, as C's `/` and `%`. */
  ghost predicate TruncDiv(a: int, d: int, q: int, r: int)
  {
    a == q * d + r && -Abs(d) < r < Abs(d) && (r != 0 ==> (r < 0 <==> a < 0))
  }

  /** Truncating division from the division of magnitudes. */
  lemma SignedDivision(a: int, d: int, q: int, r: int, negA: bool, negD: bool, a1: int, d1: int, q1: int, r1: int)
    requires NatDiv(a, d, q, r) && 0 <= a
    requires a1 == Signed(negA, a) && d1 == Signed(negD, d)
    requires q1 == Signed(negA != negD, q) && r1 == Signed(negA, r)
    ensures TruncDiv(a1, d1, q1, r1)
  {
    SignMul(q, d);
    assert d * q == q * d;
    if a == 0 && r != 0 {
      NoSmallProduct(d, q, r);
    }
  }

  lemma NoSmallProduct(d: int, q: int, r: int)
    requires 0 < r < d
    ensures r + d * q != 0
  {
    if q >= 0 {
      MulMono(0, q, d);
    } else {
      MulMono(q, -1, d);
    }
  }

  /** Truncating division has only one answer. */
  lemma TruncDivUnique(a: int, d: int, q1: int, r1: int, q2: int, r2: int)
    requires TruncDiv(a, d, q1, r1) && TruncDiv(a, d, q2, r2) && d != 0
    ensures q1 == q2 && r1 == r2
  {
    SumMul(q1, -q2, d);
    SignMul(q2, d);
    MulAbs(q1 - q2, d);
  }

  lemma MulAbs(k: int, d: int)
    ensures k == 0 || Abs(k * d) >= Abs(d)
  {
    if k >= 1 {
      MulMono(1, k, Abs(d));
    } else if k <= -1 {
      MulMono(k, -1, Abs(d));
    }
    SignMul(k, d);
  }

  /** Two plain digit strings, the first at least as long: the loop will run and trim. */
  ghost predicate PlainlyLonger(s: seq<int>, t: seq<int>)
  {
    !IsNeg(s) && !IsNeg(t) && |s| >= |t|
  }

  /** A copy of the magnitude, to be worked on in place. */
  method MagnitudeCopy(b: Blk) returns (m: Blk, neg: bool)
    requires b.Valid() && IsNum(b.Digits())
    ensures fresh(m) && m.Valid() && IsDigits(m.Digits()) && Val(m.Digits()) >= 0
    ensures neg <==> IsNeg(b.Digits())
    ensures Val(b.Digits()) == Signed(neg, Val(m.Digits()))
    ensures Canonical(b.Digits()) ==> Canonical(m.Digits())
    ensures !neg ==> m.wt == b.wt
  {
    m := new Blk.Copy(b);
    ValSign(b.Digits());
    m.FsFile();
    neg := false;
    if !m.SfBeg() {
      var c := m.SbackC();
      if c == -1 {
        ChSign(m);
        neg := true;
      }
    }
  }

  /**
   Truncating division.  An empty divisor is "divide by 0": an empty quotient and
   no remainder.  Otherwise the dividend is quotient times divisor plus remainder,
   the remainder is smaller than the divisor and zero or of the dividend's sign.
   Every intermediate digit fits the signed char it is stored in.
   */
  method Div(ddivd: Blk, ddivr: Blk, divxyz: Blk) returns (p: Blk, rem: Blk?)
    requires ddivd.Valid() && ddivr.Valid() && divxyz.Valid() && divxyz != ddivd && divxyz != ddivr
    requires IsNum(ddivd.Digits()) && Canonical(ddivr.Digits())
    modifies ddivr`rd, divxyz
    ensures ddivr.Valid() && divxyz.Valid() && p.Valid() && fresh(p) && Canonical(p.Digits())
    ensures rem == null <==> Val(ddivr.Digits()) == 0
    ensures rem == null ==> p.Digits() == []
    ensures rem != null ==> fresh(rem) && rem != p && rem.Valid() && IsNum(rem.Digits())
    ensures rem != null ==>
              TruncDiv(Val(ddivd.Digits()), Val(ddivr.Digits()), Val(p.Digits()), Val(rem.Digits()))
    ensures rem != null && (Canonical(ddivd.Digits()) || PlainlyLonger(ddivd.Digits(), ddivr.Digits())) ==>
              Canonical(rem.Digits())
  {
    ValSign(ddivr.Digits());
    if ddivr.wt == 0 {
      p := new Blk.Salloc(0);
      rem := null;
      assert p.Digits() == [];
    } else {
      p, rem := DivNonzero(ddivd, ddivr, divxyz);
    }
  }

  /** Divides the magnitudes and puts the signs back; `a` and `d` are the signed operands. */
  method DivSigned(divd: Blk, divr: Blk, divxyz: Blk, negA: bool, negD: bool, ghost a: int, ghost d: int)
      returns (p: Blk, rem: Blk)
    requires divd.Valid() && divr.Valid() && divxyz.Valid()
    requires divd != divr && divd != divxyz && divr != divxyz
    requires IsDigits(divd.Digits()) && IsDigits(divr.Digits()) && divr.wt > 0
    requires divr.Digits()[divr.wt - 1] != 0 && Val(divd.Digits()) >= 0
    requires a == Signed(negA, Val(divd.Digits())) && d == Signed(negD, Val(divr.Digits()))
    modifies divd, divr`rd, divxyz
    ensures p.Valid() && rem.Valid() && divr.Valid() && divxyz.Valid()
    ensures fresh(p) && (rem == divd || fresh(rem)) && p != rem
    ensures Canonical(p.Digits()) && IsNum(rem.Digits())
    ensures TruncDiv(a, d, Val(p.Digits()), Val(rem.Digits()))
    ensures old(Canonical(divd.Digits())) || old(divd.wt) >= divr.wt ==> Canonical(rem.Digits())
  {
    ghost var a0, d0 := Val(divd.Digits()), Val(divr.Digits());
    p, rem := DivDigits(divd, divr, divxyz);
    ghost var q, r := Val(p.Digits()), Val(rem.Digits());
    SetSign(p, negA != negD);
    SetSign(rem, negA);
    SignedDivision(a0, d0, q, r, negA, negD, a, d, Val(p.Digits()), Val(rem.Digits()));
  }

  lemma SameZero(s: seq<int>, t: seq<int>)
    requires Canonical(s) && Canonical(t) && (Val(s) == Val(t) || Val(s) == -Val(t)) && s != []
    ensures t != []
  {
    ValSign(s);
    ValSign(t);
  }

  /** The part of `div` after the test for an empty divisor. */
  method DivNonzero(ddivd: Blk, ddivr: Blk, divxyz: Blk) returns (p: Blk, rem: Blk)
    requires ddivd.Valid() && ddivr.Valid() && divxyz.Valid() && divxyz != ddivd && divxyz != ddivr
    requires IsNum(ddivd.Digits()) && Canonical(ddivr.Digits()) && ddivr.wt > 0
    modifies ddivr`rd, divxyz
    ensures ddivr.Valid() && divxyz.Valid() && p.Valid() && fresh(p) && Canonical(p.Digits())
    ensures fresh(rem) && rem != p && rem.Valid() && IsNum(rem.Digits())
    ensures TruncDiv(Val(ddivd.Digits()), Val(ddivr.Digits()), Val(p.Digits()), Val(rem.Digits()))
    ensures Canonical(ddivd.Digits()) || PlainlyLonger(ddivd.Digits(), ddivr.Digits()) ==> Canonical(rem.Digits())
  {
    var divr, negD := Magnitude(ddivr);
    SameZero(ddivr.Digits(), divr.Digits());
    var divd, negA := MagnitudeCopy(ddivd);
    p, rem := DivSigned(divd, divr, divxyz, negA, negD, Val(ddivd.Digits()), Val(ddivr.Digits()));
  }
}
