/** `tenot`: a number printed in base ten, with long lines folded. */
module DcPrint {
  import opened DcRadix
  import opened DcBlk
  import opened DcExp

  const DOT := 46
  const BACKSLASH := 92
  const NEWLINE := 10

  // ---------------------------------------------------------------- folded text

  /** The text ends in a fold, a backslash and a newline. */
  predicate EndsInFold(out: seq<int>) {
    |out| >= 2 && out[|out| - 2] == BACKSLASH && out[|out| - 1] == NEWLINE
  }

  /** The text with its folds taken out. */
  function Unfold(out: seq<int>): seq<int> {
    if EndsInFold(out) then Unfold(out[..|out| - 2])
    else if out == [] then []
    else Unfold(out[..|out| - 1]) + [out[|out| - 1]]
  }

  /** How many characters there are since the last fold. */
  function Column(out: seq<int>): nat {
    if EndsInFold(out) || out == [] then 0 else Column(out[..|out| - 1]) + 1
  }

  /**
   A place where a line of length `ll` may be folded: it is full, or has one character too
   many; the first line may be one short, since a lone digit is counted as two.
   */
  ghost predicate FoldAt(out: seq<int>, ll: int) {
    ll >= 1 ==> ll - 1 <= Column(out) <= ll + 1 && (Column(out) == ll - 1 ==> Unfold(out) == out)
  }

  /** Every backslash belongs to a fold, and every fold is where it may be. */
  ghost predicate InLines(out: seq<int>, ll: int) {
    if EndsInFold(out) then InLines(out[..|out| - 2], ll) && FoldAt(out[..|out| - 2], ll)
    else out != [] ==> out[|out| - 1] != BACKSLASH && InLines(out[..|out| - 1], ll)
  }

  lemma LinesPut(out: seq<int>, ll: int, c: int)
    requires InLines(out, ll) && c != BACKSLASH
    ensures InLines(out + [c], ll) && Unfold(out + [c]) == Unfold(out) + [c] && Column(out + [c]) == Column(out) + 1
  {
    assert (out + [c])[..|out|] == out;
    assert out != [] ==> out[|out| - 1] != BACKSLASH;
  }

  lemma LinesFold(out: seq<int>, ll: int)
    requires InLines(out, ll) && FoldAt(out, ll)
    ensures var more := out + [BACKSLASH, NEWLINE];
            InLines(more, ll) && Unfold(more) == Unfold(out) && Column(more) == 0
  {
    assert (out + [BACKSLASH, NEWLINE])[..|out|] == out;
  }

  // ---------------------------------------------------------------- decimal digits

  lemma {:induction false} PowerPositive(b: int, n: nat)
    requires b > 0
    ensures Power(b, n) > 0
  {
    if n > 0 {
      PowerPositive(b, n - 1);
      assert b * Power(b, n - 1) > 0;
    }
  }

  lemma {:induction false} PowerTen(h: nat)
    ensures Power(10, 2 * h) == Pow(h)
  {
    if h > 0 {
      PowerTen(h - 1);
      assert Power(10, 2 * h) == 10 * Power(10, 2 * h - 1);
      assert Power(10, 2 * h - 1) == 10 * Power(10, 2 * h - 2);
    }
  }

  /** The last `l` decimal digits of a number. */
  function Fixed(n: int, l: nat): (r: seq<int>)
    ensures |r| == l && forall k :: 0 <= k < l ==> 48 <= r[k] <= 57
    decreases l
  {
    if l == 0 then [] else Fixed(n / 10, l - 1) + [48 + n % 10]
  }

  lemma FixedDigit(v: int, l: nat, d: int)
    requires 0 <= d <= 9
    ensures Fixed(v * 10 + d, l + 1) == Fixed(v, l) + [48 + d]
  {
    assert (v * 10 + d) / 10 == v && (v * 10 + d) % 10 == d;
  }

  /** A digit of base 100 as characters, one if it is small and comes first. */
  function TwoDigits(c: int, first: bool): seq<int> {
    if c < 10 && first then [48 + c] else [48 + c / 10] + [48 + c % 10]
  }

  lemma FixedPair(v: int, l: nat, c: int)
    requires 0 <= c <= 99
    ensures Fixed(v * 100 + c, l + 2) == Fixed(v, l) + TwoDigits(c, false)
  {
    FixedDigit(v, l, c / 10);
    FixedDigit(v * 10 + c / 10, l + 1, c % 10);
    assert (v * 10 + c / 10) * 10 + c % 10 == v * 100 + c;
  }

  lemma FixedFirst(c: int)
    requires 0 <= c <= 99
    ensures Fixed(c, |TwoDigits(c, true)|) == TwoDigits(c, true)
  {
    assert Fixed(0, 0) == [];
    if c < 10 {
      FixedDigit(0, 0, c);
    } else {
      FixedPair(0, 0, c);
    }
  }

  // ---------------------------------------------------------------- the printer

  /** What went out, and how much of the line is left. */
  class Printer {
    const ll: int
    var count: int
    var out: seq<int>
    /** One if a lone digit on the first line was counted as two. */
    ghost var extra: nat

    constructor (ll: int)
      ensures this.ll == ll && out == [] && Neat()
    {
      this.ll, count, out, extra := ll, ll, [], 0;
    }

    /** What is left of the line is what `count` says. */
    ghost predicate Neat()
      reads this
    {
      && InLines(out, ll) && extra <= 1 && (extra == 1 ==> out != [] && Unfold(out) == out)
      && (ll >= 1 ==> 0 < count == ll - Column(out) - extra)
    }

    /** Characters have gone out, to be counted as `n`. */
    ghost predicate Due(n: int)
      reads this
    {
      && InLines(out, ll) && extra <= 1 && (extra == 1 ==> out != [] && Unfold(out) == out)
      && (ll >= 1 ==> 0 < count && count - n == ll - Column(out) - extra)
    }

    method Fold()
      requires InLines(out, ll) && FoldAt(out, ll)
      modifies this
      ensures Neat() && Unfold(out) == Unfold(old(out))
    {
      LinesFold(out, ll);
      out := out + [BACKSLASH, NEWLINE];
      count, extra := ll, 0;
    }

    /** `TEST2` */
    method Test2()
      requires Due(2)
      modifies this
      ensures Neat() && Unfold(out) == Unfold(old(out))
    {
      count := count - 2;
      if count <= 0 {
        Fold();
      }
    }

    /** `OUTC` */
    method OutChar(c: int)
      requires Neat() && c != BACKSLASH
      modifies this
      ensures Neat() && Unfold(out) == Unfold(old(out)) + [c]
    {
      LinesPut(out, ll, c);
      out := out + [c];
      extra := if extra == 1 && Unfold(out) == out then 1 else 0;
      count := count - 1;
      if count == 0 {
        Fold();
      }
    }

    /** A base-100 digit as two characters, or as one if it is small and comes first. */
    method Pair(c: int, first: bool)
      requires Neat() && 0 <= c <= 99 && (first ==> out == [])
      modifies this
      ensures Neat() && Unfold(out) == Unfold(old(out)) + TwoDigits(c, first)
    {
      if c < 10 && first {
        LinesPut(out, ll, 48 + c);
        assert Column(out) == 0 && Unfold(out) == out;
        out := out + [48 + c];
        extra := 1;
      } else {
        Print2(48 + c / 10, 48 + c % 10);
      }
      Test2();
    }

    method Print2(x: int, y: int)
      requires Neat() && x != BACKSLASH && y != BACKSLASH
      modifies this`out
      ensures Due(2) && Unfold(out) == Unfold(old(out)) + [x] + [y]
    {
      LinesPut(out, ll, x);
      LinesPut(out + [x], ll, y);
      out := out + [x] + [y];
    }

    /** The digit that the point splits. */
    method Straddle(c: int)
      requires Neat() && 0 <= c <= 99
      modifies this
      ensures Neat() && Unfold(out) == Unfold(old(out)) + [48 + c / 10] + [DOT] + [48 + c % 10]
    {
      Print2(48 + c / 10, DOT);
      Test2();
      OutChar(48 + c % 10);
    }
  }

  // ---------------------------------------------------------------- whole part and fraction

  lemma ValDown(s: seq<int>, k: nat)
    requires 0 < k <= |s|
    ensures Val(s[k - 1..]) == Val(s[k..]) * 100 + s[k - 1]
  {
    assert s[k - 1..][1..] == s[k..];
  }

  /** How many characters the cells from `k` up are printed as: two each, but the top one as few as it needs. */
  function CharsFrom(s: seq<int>, k: nat): nat
    requires k <= |s|
  {
    if k == |s| then 0 else 2 * (|s| - k) - if s[|s| - 1] < 10 then 1 else 0
  }

  /** What has been printed before the point. */
  ghost predicate Whole(out: seq<int>, s: seq<int>, k: nat) {
    k <= |s| && Unfold(out) == Fixed(Val(s[k..]), CharsFrom(s, k))
  }

  lemma {:induction false} WholeNext(out: seq<int>, out': seq<int>, s: seq<int>, k: nat)
    requires Whole(out, s, k) && k > 0 && IsDigits(s)
    requires Unfold(out') == Unfold(out) + TwoDigits(s[k - 1], k == |s|)
    ensures Whole(out', s, k - 1)
  {
    var c, v, n := s[k - 1], Val(s[k..]), CharsFrom(s, k);
    ValDown(s, k);
    if k == |s| {
      assert s[k..] == [];
      FixedFirst(c);
      assert Unfold(out) == [] && v == 0 && CharsFrom(s, k - 1) == |TwoDigits(c, true)|;
    } else {
      FixedPair(v, n, c);
      assert CharsFrom(s, k - 1) == n + 2;
    }
    assert Unfold(out') == Fixed(v * 100 + c, CharsFrom(s, k - 1));
  }

  /** The digits before the point, in pairs. */
  method WholePairs(p: Blk, sc: nat, o: Printer)
    requires p.Valid() && IsDigits(p.Digits()) && o.out == [] && o.Neat()
    modifies p`rd, o
    ensures p.Valid() && p.rd <= p.wt && o.Neat() && Whole(o.out, p.Digits(), p.rd)
    ensures p.rd == 0 || (p.rd - 1) * 2 < sc
    ensures p.rd == p.wt || p.rd * 2 >= sc
  {
    p.FsFile();
    var first := true;
    ghost var s := p.Digits();
    while !p.SfBeg() && (p.rd - 1) * 2 >= sc
      invariant p.Valid() && p.rd <= p.wt && p.Digits() == s && o.Neat() && Whole(o.out, s, p.rd)
      invariant (first <==> p.rd == p.wt) && (first ==> o.out == [])
      invariant p.rd == p.wt || p.rd * 2 >= sc
      decreases p.rd
    {
      ghost var out, k := o.out, p.rd;
      var c := p.SbackC();
      o.Pair(c, first);
      WholeNext(out, o.out, s, k);
      first := false;
    }
  }

  /** The whole part `w` in `l` characters, the point, and the first `k` digits of the fraction. */
  ghost predicate Pointed(out: seq<int>, w: int, l: nat, f: int, k: nat) {
    Unfold(out) == Fixed(w, l) + [DOT] + Fixed(f, k)
  }

  /** A number in two parts, the second of `k` decimal digits. */
  ghost predicate Parts(v: int, w: int, f: int, k: nat) {
    v == w * Power(10, k) + f && 0 <= f < Power(10, k) && w >= 0
  }

  lemma PartsPair(v: int, w: int, f: int, k: nat, c: int)
    requires Parts(v, w, f, k) && 0 <= c <= 99
    ensures Parts(v * 100 + c, w, f * 100 + c, k + 2)
  {
    assert Power(10, k + 2) == 10 * Power(10, k + 1) && Power(10, k + 1) == 10 * Power(10, k);
    assert (w * Power(10, k)) * 100 == w * (100 * Power(10, k));
  }

  /** The fraction so far, down to cell `r`. */
  ghost predicate InFraction(out: seq<int>, s: seq<int>, r: nat, w: int, l: nat, f: int, k: nat) {
    r <= |s| && Pointed(out, w, l, f, k) && Parts(Val(s[r..]), w, f, k)
  }

  lemma Regroup(x: seq<int>, y: seq<int>, z: seq<int>)
    ensures (x + y) + z == x + (y + z)
  {
  }

  lemma FractionIs(out: seq<int>, s: seq<int>, r: nat, w: int, l: nat, f: int, k: nat, v: int)
    requires r <= |s| && Pointed(out, w, l, f, k) && Parts(v, w, f, k) && v == Val(s[r..])
    ensures InFraction(out, s, r, w, l, f, k)
  {
  }

  lemma FractionNext(out: seq<int>, out': seq<int>, s: seq<int>, r: nat, w: int, l: nat, f: int, k: nat)
    requires InFraction(out, s, r, w, l, f, k) && r > 0 && IsDigits(s)
    requires Unfold(out') == Unfold(out) + TwoDigits(s[r - 1], false)
    ensures InFraction(out', s, r - 1, w, l, f * 100 + s[r - 1], k + 2)
  {
    var c, v, v' := s[r - 1], Val(s[r..]), Val(s[r - 1..]);
    ValDown(s, r);
    PartsPair(v, w, f, k, c);
    FixedPair(f, k, c);
    Regroup(Fixed(w, l) + [DOT], Fixed(f, k), TwoDigits(c, false));
    FractionIs(out', s, r - 1, w, l, f * 100 + c, k + 2, v');
  }

  /** The digits after the point, in pairs. */
  method FractionPairs(p: Blk, sc0: nat, o: Printer, ghost w: int, ghost l: nat, ghost f0: int, ghost k0: nat)
      returns (ghost f: int)
    requires p.Valid() && p.rd <= p.wt && IsDigits(p.Digits()) && sc0 == 2 * p.rd && o.Neat()
    requires InFraction(o.out, p.Digits(), p.rd, w, l, f0, k0)
    modifies p`rd, o
    ensures p.Valid() && o.Neat() && InFraction(o.out, p.Digits(), 0, w, l, f, k0 + sc0)
  {
    var sc := sc0;
    ghost var s, k := p.Digits(), k0;
    f := f0;
    while sc > 1
      invariant p.Valid() && p.rd <= p.wt && p.Digits() == s && sc == 2 * p.rd && k == k0 + sc0 - sc && o.Neat()
      invariant InFraction(o.out, s, p.rd, w, l, f, k)
      decreases sc
    {
      ghost var out, r := o.out, p.rd;
      var c := p.SbackC();
      o.Pair(c, false);
      FractionNext(out, o.out, s, r, w, l, f, k);
      f, k, sc := f * 100 + c, k + 2, sc - 2;
      assert InFraction(o.out, s, p.rd, w, l, f, k);
    }
  }

  /** Zeros after the point, for a number shorter than its scale. */
  method LeadingZeros(p: Blk, sc0: nat, o: Printer, ghost w: int, ghost l: nat, ghost f: int)
      returns (sc: nat, ghost k: nat)
    requires p.Valid() && p.rd <= p.wt && 2 * p.rd <= sc0 && (p.rd == p.wt || 2 * p.rd == sc0)
    requires o.Neat() && InFraction(o.out, p.Digits(), p.rd, w, l, f, 0)
    requires f == 0 && w == Val(p.Digits()[p.rd..]) >= 0
    modifies o
    ensures sc == 2 * p.rd && k == sc0 - sc && o.Neat()
    ensures InFraction(o.out, p.Digits(), p.rd, w, l, f, k)
  {
    sc, k := sc0, 0;
    ghost var s := p.Digits();
    while sc > p.rd * 2
      invariant 2 * p.rd <= sc <= sc0 && k == sc0 - sc && o.Neat()
      invariant InFraction(o.out, s, p.rd, w, l, f, k)
    {
      ghost var out := o.out;
      o.OutChar(48);
      ZeroNext(out, o.out, s, p.rd, w, l, f, k);
      sc, k := sc - 1, k + 1;
      assert InFraction(o.out, s, p.rd, w, l, f, k);
    }
  }

  lemma ZeroNext(out: seq<int>, out': seq<int>, s: seq<int>, r: nat, w: int, l: nat, f: int, k: nat)
    requires InFraction(out, s, r, w, l, f, k) && f == 0 && r == |s| && w == 0
    requires Unfold(out') == Unfold(out) + [48]
    ensures InFraction(out', s, r, w, l, f, k + 1)
  {
    FixedDigit(0, k, 0);
    Regroup(Fixed(w, l) + [DOT], Fixed(f, k), [48]);
    PowerPositive(10, k + 1);
    FractionIs(out', s, r, w, l, f, k + 1, 0);
  }

  // ---------------------------------------------------------------- the whole text

  /** How many characters there are before the point. */
  function WholeChars(s: seq<int>, sc: nat): nat {
    if 2 * |s| <= sc then 0
    else 2 * |s| - sc - if 2 * (|s| - 1) >= sc && s[|s| - 1] < 10 then 1 else 0
  }

  /** The whole part, and the fraction in as many digits as the scale says. */
  function Spelling(s: seq<int>, sc: nat): seq<int>
  {
    PowerPositive(10, sc);
    Fixed(Val(s) / Power(10, sc), WholeChars(s, sc))
    + if sc == 0 then [] else [DOT] + Fixed(Val(s) % Power(10, sc), sc)
  }

  lemma PartsUnique(v: int, w: int, f: int, k: nat)
    requires Parts(v, w, f, k)
    ensures Power(10, k) > 0 && w == v / Power(10, k) && f == v % Power(10, k)
  {
    PowerPositive(10, k);
    var d := Power(10, k);
    assert v == d * w + f;
    DivUnique(v, d, w, f);
  }

  lemma DivUnique(v: int, d: int, w: int, f: int)
    requires d > 0 && v == d * w + f && 0 <= f < d
    ensures w == v / d && f == v % d
  {
    var q, r := v / d, v % d;
    assert v == d * q + r;
    if q < w {
      MulMono(q + 1, w, d);
    } else if w < q {
      MulMono(w + 1, q, d);
    }
  }

  /**
   A printed number: the text with its folds taken out, a newline at the end, and lines
   folded where they may be, none longer than that.
   */
  ghost predicate Printed(out: seq<int>, ll: int, text: seq<int>) {
    && out != [] && out[|out| - 1] == NEWLINE
    && var body := out[..|out| - 1];
       Unfold(body) == text && InLines(body, ll) && (ll >= 1 ==> Column(body) < ll)
  }

  lemma SpelledWhole(s: seq<int>)
    ensures Spelling(s, 0) == Fixed(Val(s), CharsFrom(s, 0))
  {
    assert Power(10, 0) == 1;
  }

  lemma SpelledParts(s: seq<int>, sc: nat, w: int, l: nat, f: int, k: nat)
    requires sc > 0 && Parts(Val(s), w, f, sc) && k <= |s|
    requires if 2 * k > sc then sc == 2 * k - 1 && l == CharsFrom(s, k) + 1
             else l == CharsFrom(s, k) && (k == |s| || 2 * k == sc)
    ensures Spelling(s, sc) == Fixed(w, l) + [DOT] + Fixed(f, sc)
  {
    PartsUnique(Val(s), w, f, sc);
    assert l == WholeChars(s, sc);
  }

  /**
   `tenot`: what is printed is the number's spelling, on lines of the given length. The
   last branch of the source, for one digit left over, cannot be reached: by then the
   scale is even.
   */
  method Tenot(p: Blk, sc0: nat, o: Printer)
    requires p.Valid() && IsDigits(p.Digits()) && o.out == [] && o.Neat()
    modifies p`rd, o
    ensures p.Valid() && Printed(o.out, o.ll, Spelling(p.Digits(), sc0))
  {
    WholePairs(p, sc0, o);
    ghost var s, k := p.Digits(), p.rd;
    if sc0 == 0 {
      assert s[p.rd..] == s;
      SpelledWhole(s);
    } else {
      assert AtPoint(s, k, sc0);
      Fraction(p, sc0, o);
    }
    assert (o.out + [NEWLINE])[..|o.out|] == o.out;
    o.out := o.out + [NEWLINE];
  }

  /** Where the point is: in the middle of cell `k - 1`, or above what is left. */
  ghost predicate AtPoint(s: seq<int>, k: nat, sc: nat) {
    k <= |s| && (k == 0 || (k - 1) * 2 < sc) && (k == |s| || k * 2 >= sc)
  }

  /** The point and what comes after it. */
  method Fraction(p: Blk, sc0: nat, o: Printer)
    requires p.Valid() && IsDigits(p.Digits()) && sc0 > 0 && o.Neat()
    requires AtPoint(p.Digits(), p.rd, sc0) && Whole(o.out, p.Digits(), p.rd)
    modifies p`rd, o
    ensures p.Valid() && o.Neat() && Unfold(o.out) == Spelling(p.Digits(), sc0)
  {
    if p.rd * 2 > sc0 {
      Straddled(p, sc0, o);
    } else {
      Aligned(p, sc0, o);
    }
  }

  /** The point comes between the two digits of a cell. */
  method Straddled(p: Blk, sc0: nat, o: Printer)
    requires p.Valid() && IsDigits(p.Digits()) && sc0 > 0 && o.Neat() && sc0 < 2 * p.rd
    requires AtPoint(p.Digits(), p.rd, sc0) && Whole(o.out, p.Digits(), p.rd)
    modifies p`rd, o
    ensures p.Valid() && o.Neat() && Unfold(o.out) == Spelling(p.Digits(), sc0)
  {
    ghost var s, k, out := p.Digits(), p.rd, o.out;
    var c := p.SbackC();
    o.Straddle(c);
    ghost var w, l, f0 := Split(out, o.out, s, k);
    ghost var f := FractionPairs(p, sc0 - 1, o, w, l, f0, 1);
    assert s[0..] == s;
    SpelledParts(s, sc0, w, l, f, k);
  }

  /** The point comes between two cells, or before zeros. */
  method Aligned(p: Blk, sc0: nat, o: Printer)
    requires p.Valid() && IsDigits(p.Digits()) && sc0 > 0 && o.Neat() && 2 * p.rd <= sc0
    requires AtPoint(p.Digits(), p.rd, sc0) && Whole(o.out, p.Digits(), p.rd)
    modifies p`rd, o
    ensures p.Valid() && o.Neat() && Unfold(o.out) == Spelling(p.Digits(), sc0)
  {
    ghost var s, k, out := p.Digits(), p.rd, o.out;
    o.OutChar(DOT);
    ghost var w, l, f0 := PointOnly(out, o.out, s, k);
    var sc;
    ghost var z;
    sc, z := LeadingZeros(p, sc0, o, w, l, f0);
    ghost var f := FractionPairs(p, sc, o, w, l, f0, z);
    assert s[0..] == s;
    SpelledParts(s, sc0, w, l, f, k);
  }

  /** Nothing of the fraction yet. */
  lemma PointOnly(out: seq<int>, out': seq<int>, s: seq<int>, k: nat) returns (w: int, l: nat, f: int)
    requires Whole(out, s, k) && IsDigits(s) && Unfold(out') == Unfold(out) + [DOT]
    ensures InFraction(out', s, k, w, l, f, 0) && f == 0 && l == CharsFrom(s, k) && w == Val(s[k..]) >= 0
  {
    w, l, f := Val(s[k..]), CharsFrom(s, k), 0;
    ValBounds(s[k..]);
    assert Fixed(0, 0) == [];
    assert Power(10, 0) == 1;
  }

  /** The cell that the point splits. */
  lemma {:induction false} Split(out: seq<int>, out': seq<int>, s: seq<int>, k: nat) returns (w: int, l: nat, f: int)
    requires Whole(out, s, k) && 0 < k && IsDigits(s)
    requires Unfold(out') == Unfold(out) + [48 + s[k - 1] / 10] + [DOT] + [48 + s[k - 1] % 10]
    ensures InFraction(out', s, k - 1, w, l, f, 1) && l == CharsFrom(s, k) + 1
  {
    var c, v := s[k - 1], Val(s[k..]);
    w, l, f := v * 10 + c / 10, CharsFrom(s, k) + 1, c % 10;
    ValBounds(s[k..]);
    ValDown(s, k);
    SplitText(out, out', v, CharsFrom(s, k), c);
    SplitValue(v, c);
    FractionIs(out', s, k - 1, w, l, f, 1, v * 100 + c);
  }

  lemma {:induction false} SplitText(out: seq<int>, out': seq<int>, v: int, l: nat, c: int)
    requires Unfold(out) == Fixed(v, l) && 0 <= c <= 99
    requires Unfold(out') == Unfold(out) + [48 + c / 10] + [DOT] + [48 + c % 10]
    ensures Pointed(out', v * 10 + c / 10, l + 1, c % 10, 1)
  {
    FixedDigit(v, l, c / 10);
    FixedDigit(0, 0, c % 10);
    assert Fixed(0, 0) == [];
  }

  lemma {:induction false} SplitValue(v: int, c: int)
    requires v >= 0 && 0 <= c <= 99
    ensures Parts(v * 100 + c, v * 10 + c / 10, c % 10, 1)
  {
    assert Power(10, 1) == 10 * Power(10, 0);
  }

  // ---------------------------------------------------------------- the text and the value

  /** A number as it is written down, without leading zeros. */
  function Decimal(n: nat): seq<int> {
    if n < 10 then [48 + n] else Decimal(n / 10) + [48 + n % 10]
  }

  /** The number of decimal digits is `l`. */
  ghost predicate HasDigits(n: int, l: nat) {
    l >= 1 && Power(10, l - 1) <= n < Power(10, l)
  }

  lemma {:induction false} FixedDecimal(n: nat, l: nat)
    requires HasDigits(n, l)
    ensures Fixed(n, l) == Decimal(n)
  {
    assert Power(10, l) == 10 * Power(10, l - 1);
    if l > 1 {
      assert Power(10, l - 1) == 10 * Power(10, l - 2);
      PowerPositive(10, l - 2);
      assert n >= 10;
      FixedDecimal(n / 10, l - 1);
    } else {
      assert Power(10, 0) == 1 && Fixed(n / 10, 0) == [];
    }
  }

  lemma {:induction false} PowerSum(a: nat, b: nat)
    ensures Power(10, a + b) == Power(10, a) * Power(10, b)
  {
    if a > 0 {
      PowerSum(a - 1, b);
      assert Power(10, a + b) == 10 * Power(10, a - 1 + b);
      assert 10 * (Power(10, a - 1) * Power(10, b)) == (10 * Power(10, a - 1)) * Power(10, b);
    } else {
      assert Power(10, 0) == 1;
    }
  }

  /** Taking the last `sc` digits off leaves that many less. */
  lemma {:induction false} DigitsLeft(v: int, l: nat, sc: nat)
    requires HasDigits(v, l)
    ensures Power(10, sc) > 0
    ensures l > sc ==> HasDigits(v / Power(10, sc), l - sc)
    ensures l <= sc ==> v / Power(10, sc) == 0
  {
    PowerPositive(10, sc);
    PowerPositive(10, l - 1);
    var d := Power(10, sc);
    if l > sc {
      PowerSum(l - 1 - sc, sc);
      PowerSum(l - sc, sc);
      DivBounds(v, d, Power(10, l - 1 - sc), Power(10, l - sc));
    } else {
      PowerSum(sc - l, l);
      PowerPositive(10, sc - l);
      MulMono(1, Power(10, sc - l), Power(10, l));
      DivUnique(v, d, 0, v);
    }
  }

  lemma DivBounds(v: int, d: int, lo: int, hi: int)
    requires d > 0 && lo * d <= v < hi * d
    ensures lo <= v / d < hi
  {
    var q, r := v / d, v % d;
    assert v == d * q + r;
    if q < lo {
      MulMono(q + 1, lo, d);
    } else if q >= hi {
      MulMono(hi, q, d);
    }
  }

  lemma TopBounds(v: int, low: int, t: int, d: int)
    requires v == low + t * d && 0 <= low < d && 0 <= t <= 99
    ensures 0 <= v && (t >= 1 ==> d <= v) && (t >= 10 ==> 10 * d <= v) && (t < 10 ==> v < 10 * d) && v < 100 * d
  {
    MulMono(if t >= 10 then 10 else if t >= 1 then 1 else 0, t, d);
    MulMono(t + 1, if t < 10 then 10 else 100, d);
  }

  /** A number between powers of a hundred, by its top digit. */
  lemma {:induction false} TopDigit(s: seq<int>)
    requires IsDigits(s) && |s| > 0
    ensures var v, t, d := Val(s), s[|s| - 1], Power(10, 2 * |s| - 2);
            0 <= v && (t >= 1 ==> d <= v) && (t >= 10 ==> 10 * d <= v) && (t < 10 ==> v < 10 * d) && v < 100 * d
  {
    var n := |s| - 1;
    ValTop(s);
    ValBounds(s[..n]);
    PowerTen(n);
    TopBounds(Val(s), Val(s[..n]), s[n], Pow(n));
  }

  lemma {:induction false} NextPowers(n: nat)
    ensures Power(10, n + 1) == 10 * Power(10, n) && Power(10, n + 2) == 100 * Power(10, n)
  {
    assert Power(10, n + 2) == 10 * Power(10, n + 1);
  }

  /** The decimal digits of a number in dc's form. */
  lemma {:induction false} CountDigits(s: seq<int>)
    requires IsDigits(s) && |s| > 0 && s[|s| - 1] != 0
    ensures HasDigits(Val(s), 2 * |s| - if s[|s| - 1] < 10 then 1 else 0)
  {
    TopDigit(s);
    NextPowers(2 * |s| - 2);
  }

  /** The whole part has no more digits than it is given characters, leading zeros or not. */
  lemma {:induction false} WholeRoom(s: seq<int>, sc: nat)
    requires IsDigits(s)
    ensures Power(10, sc) > 0 && 0 <= Val(s) / Power(10, sc) < Power(10, WholeChars(s, sc))
  {
    PowerPositive(10, sc);
    ValBounds(s);
    var d, l := Power(10, sc), WholeChars(s, sc);
    var u := if s == [] || s[|s| - 1] >= 10 || 2 * (|s| - 1) < sc then 2 * |s| else 2 * |s| - 1;
    ValBelow(s, u);
    if u <= sc {
      PowerSum(sc - u, u);
      PowerPositive(10, sc - u);
      MulMono(1, Power(10, sc - u), Power(10, u));
      DivUnique(Val(s), d, 0, Val(s));
      PowerPositive(10, l);
    } else {
      PowerSum(u - sc, sc);
      DivBounds(Val(s), d, 0, Power(10, u - sc));
    }
  }

  lemma {:induction false} ValBelow(s: seq<int>, u: nat)
    requires IsDigits(s) && (u == 2 * |s| || (u == 2 * |s| - 1 && s[|s| - 1] < 10))
    ensures 0 <= Val(s) < Power(10, u)
  {
    if s == [] {
      assert Power(10, 0) == 1;
    } else {
      TopDigit(s);
      NextPowers(2 * |s| - 2);
    }
  }

  /** With an odd scale, a fraction whose first digit is not zero has a zero before the point. */
  ghost predicate LoneZero(v: int, sc: nat) {
    sc % 2 == 1 && HasDigits(v, sc)
  }

  /** What stands before the point: the whole part, or nothing if there is none, or a lone zero. */
  ghost function WholeText(v: int, sc: nat): seq<int>
    requires v >= 0
  {
    PowerPositive(10, sc);
    if v / Power(10, sc) > 0 then Decimal(v / Power(10, sc)) else if LoneZero(v, sc) then [48] else []
  }

  lemma {:induction false} DigitsUnique(v: int, k: nat, l: nat)
    requires HasDigits(v, k) && HasDigits(v, l)
    ensures k == l
  {
    if k < l {
      PowerSum(l - 1 - k, k);
      PowerPositive(10, l - 1 - k);
      PowerPositive(10, k);
      MulMono(1, Power(10, l - 1 - k), Power(10, k));
    }
    if l < k {
      PowerSum(k - 1 - l, l);
      PowerPositive(10, k - 1 - l);
      PowerPositive(10, l);
      MulMono(1, Power(10, k - 1 - l), Power(10, l));
    }
  }

  /** For a number in dc's form the text is decided by value and scale. */
  lemma {:induction false} SpellingOfValue(s: seq<int>, sc: nat)
    requires IsDigits(s) && Canonical(s) && Val(s) >= 0
    ensures Power(10, sc) > 0
    ensures Spelling(s, sc) ==
            WholeText(Val(s), sc) + if sc == 0 then [] else [DOT] + Fixed(Val(s) % Power(10, sc), sc)
  {
    PowerPositive(10, sc);
    WholeOfValue(s, sc, Val(s), Power(10, sc));
  }

  lemma {:induction false} WholeOfValue(s: seq<int>, sc: nat, v: int, d: int)
    requires IsDigits(s) && Canonical(s) && v == Val(s) >= 0 && d == Power(10, sc) > 0
    ensures Fixed(v / d, WholeChars(s, sc)) == WholeText(v, sc)
  {
    if s == [] {
      DivUnique(v, d, 0, 0);
      NoDigits(v, sc);
      assert Fixed(0, 0) == [];
    } else {
      CountDigits(s);
      var n := 2 * |s| - if s[|s| - 1] < 10 then 1 else 0;
      DigitsLeft(v, n, sc);
      WholeFits(v, sc, n, v / d, WholeChars(s, sc));
    }
  }

  lemma NoDigits(v: int, sc: nat)
    requires v == 0
    ensures !HasDigits(v, sc)
  {
    if sc >= 1 {
      PowerPositive(10, sc - 1);
    }
  }

  /** The characters before the point are as many as the whole part has digits, but for a lone zero. */
  lemma {:induction false} WholeFits(v: int, sc: nat, n: nat, w: int, l: nat)
    requires HasDigits(v, n) && Power(10, sc) > 0 && w == v / Power(10, sc) && v >= 0
    requires n > sc ==> HasDigits(w, n - sc) && l == n - sc
    requires n <= sc ==> w == 0 && l == if n == sc && sc % 2 == 1 then 1 else 0
    ensures Fixed(w, l) == WholeText(v, sc)
  {
    if n > sc {
      PowerPositive(10, n - sc - 1);
      FixedDecimal(w, n - sc);
    } else {
      assert Fixed(0, 0) == [] && Fixed(0, 1) == Fixed(0, 0) + [48];
      if LoneZero(v, sc) {
        DigitsUnique(v, n, sc);
      }
    }
  }
}
