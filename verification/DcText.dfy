/**
 Numbers as text: `tenot` prints in base ten, folding long lines, and `readin` reads,
 with `scale` and `add0` placing the decimal point.
 */
module DcText {
  import opened DcRadix
  import opened DcBlk
  import opened DcAdd
  import opened DcMult
  import opened DcDiv
  import opened DcExp
  import opened DcPrint

  // ---------------------------------------------------------------- what a reader makes of text

  /** The reader's state: the number so far, whether the point was seen, and the digits after it. */
  datatype Reader = Reader(val: int, dp: bool, dpct: nat, skip: bool, stopped: bool)

  const FRESH := Reader(0, false, 0, false, false)

  /** The value of a digit character, or -1. */
  function DigitValue(c: int): int {
    if 65 <= c <= 70 then c - 65 + 10 else if 48 <= c <= 57 then c - 48 else -1
  }

  /** One character, with input base ten: the character after a backslash is dropped. */
  function Step(st: Reader, c: int): Reader {
    if st.stopped then st
    else if st.skip then st.(skip := false)
    else if c == DOT then (if st.dp then st.(stopped := true) else st.(dp := true))
    else if c == BACKSLASH then st.(skip := true)
    else if DigitValue(c) < 0 then st.(stopped := true)
    else if st.dp && st.dpct >= 99 then st
    else st.(val := st.val * 10 + DigitValue(c), dpct := if st.dp then st.dpct + 1 else st.dpct)
  }

  function Feed(st: Reader, text: seq<int>): Reader {
    if text == [] then st else Step(Feed(st, text[..|text| - 1]), text[|text| - 1])
  }

  lemma FeedSnoc(st: Reader, text: seq<int>, c: int)
    ensures Feed(st, text + [c]) == Step(Feed(st, text), c)
  {
    assert (text + [c])[..|text|] == text;
  }

  /** Nothing pending: the reader is between characters and goes on. */
  ghost predicate Shows(text: seq<int>, val: int, dp: bool, dpct: nat) {
    Feed(FRESH, text) == Reader(val, dp, dpct, false, false)
  }

  // ---------------------------------------------------------------- printed text, as a reader sees it

  lemma {:induction false} FeedConcat(st: Reader, a: seq<int>, b: seq<int>)
    ensures Feed(st, a + b) == Feed(Feed(st, a), b)
    decreases |b|
  {
    if b == [] {
      assert a + b == a;
    } else {
      var n := |b| - 1;
      assert a + b == (a + b[..n]) + [b[n]];
      FeedSnoc(st, a + b[..n], b[n]);
      FeedConcat(st, a, b[..n]);
    }
  }

  lemma StepFold(st: Reader)
    requires !st.skip
    ensures Step(Step(st, BACKSLASH), NEWLINE) == st
  {
  }

  /** A reader makes the same of both texts, and is not about to drop a character. */
  ghost predicate ReadAlike(st: Reader, a: seq<int>, b: seq<int>) {
    Feed(st, a) == Feed(st, b) && !Feed(st, a).skip
  }

  lemma AlikeFold(st: Reader, o: seq<int>, u: seq<int>, out: seq<int>)
    requires ReadAlike(st, o, u) && out == (o + [BACKSLASH]) + [NEWLINE]
    ensures ReadAlike(st, out, u)
  {
    FeedSnoc(st, o, BACKSLASH);
    FeedSnoc(st, o + [BACKSLASH], NEWLINE);
    StepFold(Feed(st, o));
  }

  lemma AlikeOther(st: Reader, o: seq<int>, u: seq<int>, c: int, out: seq<int>, v: seq<int>)
    requires ReadAlike(st, o, u) && c != BACKSLASH && out == o + [c] && v == u + [c]
    ensures ReadAlike(st, out, v)
  {
    FeedSnoc(st, o, c);
    FeedSnoc(st, u, c);
  }

  /** A reader takes no notice of folds. */
  lemma {:induction false} FeedUnfold(st: Reader, out: seq<int>, ll: int)
    requires InLines(out, ll) && !st.skip
    ensures ReadAlike(st, out, Unfold(out))
  {
    if EndsInFold(out) {
      var o := out[..|out| - 2];
      FeedUnfold(st, o, ll);
      assert out == (o + [BACKSLASH]) + [NEWLINE];
      AlikeFold(st, o, Unfold(o), out);
    } else if out != [] {
      var o, c := out[..|out| - 1], out[|out| - 1];
      FeedUnfold(st, o, ll);
      assert out == o + [c];
      AlikeOther(st, o, Unfold(o), c, out, Unfold(o) + [c]);
    }
  }

  /** The reader after `l` more digits, which make `n`. */
  function Fed(st: Reader, n: int, l: nat): Reader {
    st.(val := st.val * Power(10, l) + n, dpct := if st.dp then st.dpct + l else st.dpct)
  }

  lemma FedNext(st: Reader, n: int, l: nat)
    requires l > 0 && !st.skip && !st.stopped && (st.dp ==> st.dpct + l <= 99)
    ensures Step(Fed(st, n / 10, l - 1), 48 + n % 10) == Fed(st, n, l)
  {
    var q, r, d := n / 10, n % 10, Power(10, l - 1);
    assert Power(10, l) == 10 * d;
    assert (st.val * d + q) * 10 + r == st.val * (10 * d) + n;
  }

  lemma {:induction false} FeedFixed(st: Reader, n: int, l: nat)
    requires !st.skip && !st.stopped && (st.dp ==> st.dpct + l <= 99) && 0 <= n < Power(10, l)
    ensures Feed(st, Fixed(n, l)) == Fed(st, n, l)
  {
    if l > 0 {
      assert Power(10, l) == 10 * Power(10, l - 1);
      FeedFixed(st, n / 10, l - 1);
      FeedSnoc(st, Fixed(n / 10, l - 1), 48 + n % 10);
      FedNext(st, n, l);
    }
  }

  lemma DivParts(v: int, d: int)
    requires d > 0
    ensures (v / d) * d + v % d == v && 0 <= v % d < d
  {
  }

  /** What a reader makes of a spelling. */
  lemma {:induction false} FeedSpelling(s: seq<int>, sc: nat)
    requires IsDigits(s) && sc <= 99
    ensures Feed(FRESH, Spelling(s, sc)) == Reader(Val(s), sc > 0, sc, false, false)
  {
    WholeRoom(s, sc);
    var d, l := Power(10, sc), WholeChars(s, sc);
    var w, f := Val(s) / d, Val(s) % d;
    FeedFixed(FRESH, w, l);
    if sc == 0 {
      assert d == 1 && Fixed(w, l) + [] == Fixed(w, l);
    } else {
      FeedPoint(Fixed(w, l), w, f, sc);
      DivParts(Val(s), d);
    }
  }

  /** The point and the fraction after the whole part. */
  lemma FeedPoint(whole: seq<int>, w: int, f: int, sc: nat)
    requires Feed(FRESH, whole) == Reader(w, false, 0, false, false) && 0 < sc <= 99 && 0 <= f < Power(10, sc)
    ensures Feed(FRESH, whole + ([DOT] + Fixed(f, sc))) == Reader(w * Power(10, sc) + f, true, sc, false, false)
  {
    FeedSnoc(FRESH, whole, DOT);
    FeedConcat(FRESH, whole + [DOT], Fixed(f, sc));
    assert (whole + [DOT]) + Fixed(f, sc) == whole + ([DOT] + Fixed(f, sc));
    FeedFixed(Reader(w, true, 0, false, false), f, sc);
  }

  /** What a reader makes of a printed number: value and scale, whatever the line length. */
  lemma {:induction false} PrintedReads(out: seq<int>, ll: int, s: seq<int>, sc: nat)
    requires IsDigits(s) && sc <= 99 && Printed(out, ll, Spelling(s, sc))
    ensures Feed(FRESH, out) == Reader(Val(s), sc > 0, sc, false, true)
  {
    var body := out[..|out| - 1];
    FeedUnfold(FRESH, body, ll);
    FeedSpelling(s, sc);
    LineEnds(out, body, Reader(Val(s), sc > 0, sc, false, false));
  }

  lemma LineEnds(out: seq<int>, body: seq<int>, st: Reader)
    requires out == body + [NEWLINE] && Feed(FRESH, body) == st && !st.skip && !st.stopped
    ensures Feed(FRESH, out) == st.(stopped := true)
  {
    FeedSnoc(FRESH, body, NEWLINE);
  }

  // ---------------------------------------------------------------- reading

  lemma {:induction false} ValShift(h: nat, s: seq<int>)
    ensures Val(seq(h, _ => 0) + s) == Pow(h) * Val(s)
    decreases h
  {
    var z: seq<int> := seq(h, _ => 0);
    if h == 0 {
      assert z + s == s;
    } else {
      var y: seq<int> := seq(h - 1, _ => 0);
      assert (z + s)[1..] == y + s;
      ValShift(h - 1, s);
      assert 100 * (Pow(h - 1) * Val(s)) == (100 * Pow(h - 1)) * Val(s);
    }
  }

  lemma TenDigit()
    ensures Val([10]) == 10
  {
    assert Val([]) == 0;
  }

  /** `add0`: times ten to the power `ct0`, by whole zero digits and at most one multiplication. */
  method Add0(p: Blk, ct0: nat, tenptr: Blk) returns (t: Blk)
    requires p.Valid() && tenptr.Valid() && IsNum(p.Digits()) && tenptr.Digits() == [10]
    modifies p`rd, tenptr`rd
    ensures p.Valid() && tenptr.Valid()
    ensures fresh(t) && t.Valid() && IsNum(t.Digits()) && Val(t.Digits()) == Power(10, ct0) * Val(p.Digits())
  {
    t := ZerosThen(p, ct0 / 2);
    ZerosValue(ct0, p.Digits(), t.Digits());
    if ct0 % 2 == 1 {
      t := Mult(tenptr, t);
    }
  }

  lemma {:induction false} ZerosValue(ct: nat, s: seq<int>, t: seq<int>)
    requires t == seq(ct / 2, _ => 0) + s
    ensures ct % 2 == 0 ==> Val(t) == Power(10, ct) * Val(s)
    ensures ct % 2 == 1 ==> Val([10]) * Val(t) == Power(10, ct) * Val(s)
  {
    var h := ct / 2;
    ValShift(h, s);
    PowerTen(h);
    if ct % 2 == 1 {
      TenDigit();
      assert Power(10, ct) == 10 * Power(10, 2 * h);
      assert 10 * (Pow(h) * Val(s)) == (10 * Pow(h)) * Val(s);
    }
  }

  /** The copying part of `add0`. */
  method ZerosThen(p: Blk, h: nat) returns (q: Blk)
    requires p.Valid() && IsNum(p.Digits())
    modifies p`rd
    ensures p.Valid() && fresh(q) && q.Valid() && IsNum(q.Digits()) && q.Digits() == seq(h, _ => 0) + p.Digits()
  {
    q := new Blk.Salloc(p.wt + h);
    var k := 0;
    assert q.Digits() == [];
    while k < h
      invariant k <= h && q.Valid() && fresh(q) && q.Digits() == seq(k, _ => 0)
    {
      q.SputC(0);
      k := k + 1;
    }
    p.Rewind();
    ghost var z: seq<int>, s := q.Digits(), p.Digits();
    while !p.SfEof()
      invariant p.Valid() && q.Valid() && fresh(q) && p.rd <= p.wt && p.Digits() == s && q.Digits() == z + s[..p.rd]
      decreases p.wt - p.rd
    {
      var c := p.SgetC();
      q.SputC(c);
      assert s[..p.rd] == s[..p.rd - 1] + [c];
    }
    assert s[..p.rd] == s;
  }

  /** The input base to the power of a small number. */
  method BasePower(n: nat, inbas: Blk, sqtemp: Blk, divxyz: Blk) returns (s: Blk)
    requires inbas.Valid() && sqtemp.Valid() && divxyz.Valid() && n <= 99
    requires inbas != sqtemp && inbas != divxyz && sqtemp != divxyz
    requires sqtemp.Digits() == [2] && Canonical(inbas.Digits()) && Val(inbas.Digits()) > 0
    modifies inbas`rd, sqtemp`rd, divxyz
    ensures divxyz.Valid() && fresh(s) && s.Valid() && Canonical(s.Digits())
    ensures Val(s.Digits()) == Power(Val(inbas.Digits()), n) > 0
  {
    var q := new Blk.Salloc(1);
    assert q.Digits() == [];
    q.SputC(n);
    assert q.Digits() == [n];
    assert Val([n]) == n by { assert Val([]) == 0; }
    s := DcExp.DcExp(inbas, q, sqtemp, divxyz);
    PowerPositive(Val(inbas.Digits()), n);
  }

  /** `scale`: a number read as an integer becomes one with `n` decimal places. */
  method Scale(p: Blk, n: nat, inbas: Blk, tenptr: Blk, sqtemp: Blk, divxyz: Blk) returns (q: Blk, ghost r: int)
    requires p.Valid() && IsNum(p.Digits()) && n <= 99
    requires inbas.Valid() && tenptr.Valid() && sqtemp.Valid() && divxyz.Valid()
    requires p != divxyz && inbas != sqtemp && inbas != divxyz && tenptr != divxyz && sqtemp != divxyz
    requires tenptr.Digits() == [10] && sqtemp.Digits() == [2] && Canonical(inbas.Digits()) && Val(inbas.Digits()) > 0
    modifies p`rd, inbas`rd, tenptr`rd, sqtemp`rd, divxyz
    ensures fresh(q) && q.Valid() && q.wt >= 1 && q.Digits()[q.wt - 1] == n
    ensures TruncDiv(Power(10, n) * Val(p.Digits()), Power(Val(inbas.Digits()), n), Val(q.Digits()[..q.wt - 1]), r)
  {
    var t := Add0(p, n, tenptr);
    var s := BasePower(n, inbas, sqtemp, divxyz);
    q, r := Quotient(t, s, n, divxyz);
  }

  /** A quotient with its scale in the last cell. */
  method Quotient(t: Blk, s: Blk, n: nat, divxyz: Blk) returns (q: Blk, ghost r: int)
    requires t.Valid() && s.Valid() && divxyz.Valid() && divxyz != t && divxyz != s && n <= 99
    requires IsNum(t.Digits()) && Canonical(s.Digits()) && Val(s.Digits()) != 0
    modifies s`rd, divxyz
    ensures fresh(q) && q.Valid() && q.wt >= 1 && q.Digits()[q.wt - 1] == n
    ensures TruncDiv(Val(t.Digits()), Val(s.Digits()), Val(q.Digits()[..q.wt - 1]), r)
  {
    var rem;
    q, rem := Div(t, s, divxyz);
    r := Val(rem.Digits());
    AppendScale(q, n);
  }

  /** The scale goes on top of the digits. */
  method AppendScale(q: Blk, n: nat)
    requires q.Valid() && n <= 99
    modifies q
    ensures q.Valid() && q.wt >= 1 && q.Digits() == old(q.Digits()) + [n]
    ensures q.Digits()[q.wt - 1] == n && q.Digits()[..q.wt - 1] == old(q.Digits())
  {
    q.SputC(n);
  }

  /** With input base ten the point moves back to where it was. */
  lemma ScaleTen(v: int, n: nat, q: int, r: int)
    requires TruncDiv(Power(10, n) * v, Power(10, n), q, r)
    ensures q == v
  {
    PowerPositive(10, n);
    assert TruncDiv(Power(10, n) * v, Power(10, n), v, 0);
    TruncDivUnique(Power(10, n) * v, Power(10, n), q, r, v, 0);
  }

  /** Once stopped, the reader ignores the rest. */
  lemma {:induction false} FeedStopped(text: seq<int>, i: nat)
    requires i <= |text| && Feed(FRESH, text[..i]).stopped
    ensures Feed(FRESH, text) == Feed(FRESH, text[..i])
    decreases |text| - i
  {
    if i == |text| {
      assert text[..i] == text;
    } else {
      assert text[..i + 1] == text[..i] + [text[i]];
      FeedSnoc(FRESH, text[..i], text[i]);
      FeedStopped(text, i + 1);
    }
  }

  /** The number read so far, times ten, plus a digit. */
  method TakeDigit(p: Blk, d: int, chptr: Blk, inbas: Blk) returns (p1: Blk)
    requires p.Valid() && chptr.Valid() && inbas.Valid() && p != inbas && chptr != p && chptr != inbas
    requires Canonical(p.Digits()) && inbas.Digits() == [10] && 0 <= d <= 15
    modifies p`rd, inbas`rd, chptr
    ensures chptr.Valid() && inbas.Valid() && fresh(p1) && p1.Valid() && Canonical(p1.Digits())
    ensures Val(p1.Digits()) == Val(p.Digits()) * 10 + d
  {
    chptr.Create();
    assert chptr.Digits() == [];
    if d != 0 {
      chptr.SputC(d);
    }
    assert chptr.Digits() == if d == 0 then [] else [d];
    assert Val(chptr.Digits()) == d by { assert Val([]) == 0; }
    TenDigit();
    var q := Mult(p, inbas);
    p1 := Add(chptr, q);
  }

  /** What `readin` has read when the reader is in a given state. */
  ghost predicate Reads(text: seq<int>, i: nat, val: int, dp: bool, dpct: nat) {
    i <= |text| && Shows(text[..i], val, dp, dpct)
  }

  lemma ReadsNext(text: seq<int>, i: nat, val: int, dp: bool, dpct: nat)
    requires i < |text| && Reads(text, i, val, dp, dpct)
    ensures Feed(FRESH, text[..i + 1]) == Step(Reader(val, dp, dpct, false, false), text[i])
  {
    assert text[..i + 1] == text[..i] + [text[i]];
    FeedSnoc(FRESH, text[..i], text[i]);
  }

  /**
   The reading loop of `readin` with input base ten: what it ends with is what the
   reader makes of the text.
   */
  method ReadDigits(text: seq<int>, chptr: Blk, inbas: Blk) returns (p: Blk, dp: bool, dpct: nat)
    requires chptr.Valid() && inbas.Valid() && chptr != inbas && inbas.Digits() == [10]
    modifies inbas`rd, chptr
    ensures chptr.Valid() && inbas.Valid() && fresh(p) && p.Valid() && Canonical(p.Digits())
    ensures var st := Feed(FRESH, text); Val(p.Digits()) == st.val && dp == st.dp && dpct == st.dpct <= 99
  {
    p := new Blk.Salloc(0);
    dp, dpct := false, 0;
    var i := 0;
    assert p.Digits() == [] && text[..0] == [] && Val([]) == 0;
    while i < |text|
      invariant chptr.Valid() && inbas.Valid() && fresh(p) && p.Valid() && Canonical(p.Digits())
      invariant Reads(text, i, Val(p.Digits()), dp, dpct) && dpct <= 99
      decreases |text| - i
    {
      var c := text[i];
      ReadsNext(text, i, Val(p.Digits()), dp, dpct);
      i := i + 1;
      var d := DigitValue(c);
      if c == DOT && !dp {
        dp := true;
      } else if c == BACKSLASH {
        if i == |text| {
          assert text[..i] == text;
          return;
        }
        assert text[..i + 1] == text[..i] + [text[i]];
        FeedSnoc(FRESH, text[..i], text[i]);
        i := i + 1;
      } else if c == DOT || d < 0 {
        FeedStopped(text, i);
        return;
      } else if !(dp && dpct >= 99) {
        if dp {
          dpct := dpct + 1;
        }
        p := TakeDigit(p, d, chptr, inbas);
      }
    }
    assert text[..i] == text;
  }

  /** `readin` with input base ten: the value, and the scale as the last cell. */
  method Readin(text: seq<int>, chptr: Blk, inbas: Blk, tenptr: Blk, sqtemp: Blk, divxyz: Blk) returns (q: Blk)
    requires chptr.Valid() && inbas.Valid() && tenptr.Valid() && sqtemp.Valid() && divxyz.Valid()
    requires chptr != inbas && chptr != tenptr && chptr != sqtemp && chptr != divxyz && inbas != sqtemp
             && inbas != divxyz
    requires tenptr != divxyz && sqtemp != divxyz
    requires inbas.Digits() == [10] && tenptr.Digits() == [10] && sqtemp.Digits() == [2]
    modifies inbas`rd, tenptr`rd, sqtemp`rd, chptr, divxyz
    ensures fresh(q) && q.Valid() && q.wt >= 1
    ensures var st := Feed(FRESH, text);
            Val(q.Digits()[..q.wt - 1]) == st.val && q.Digits()[q.wt - 1] == if st.dp then st.dpct else 0
  {
    var p, dp, dpct := ReadDigits(text, chptr, inbas);
    TenDigit();
    if !dp {
      ghost var d := p.Digits();
      p.SputC(0);
      assert p.Digits()[..p.wt - 1] == d;
      q := p;
    } else {
      ghost var v := Val(p.Digits());
      ghost var r;
      q, r := Scale(p, dpct, inbas, tenptr, sqtemp, divxyz);
      ScaleTen(v, dpct, Val(q.Digits()[..q.wt - 1]), r);
    }
  }

  /**
   Printed and read back: for every string of base-100 digits and every scale up to 99,
   and every line length, value and scale are the same.
   */
  method RoundTrip(p: Blk, sc: nat, ll: int, chptr: Blk, inbas: Blk, tenptr: Blk, sqtemp: Blk, divxyz: Blk)
    returns (q: Blk)
    requires p.Valid() && IsDigits(p.Digits()) && sc <= 99
    requires chptr.Valid() && inbas.Valid() && tenptr.Valid() && sqtemp.Valid() && divxyz.Valid()
    requires p != chptr && p != divxyz
    requires chptr != inbas && chptr != tenptr && chptr != sqtemp && chptr != divxyz && inbas != sqtemp
             && inbas != divxyz
    requires tenptr != divxyz && sqtemp != divxyz
    requires inbas.Digits() == [10] && tenptr.Digits() == [10] && sqtemp.Digits() == [2]
    modifies p`rd, inbas`rd, tenptr`rd, sqtemp`rd, chptr, divxyz
    ensures q.Valid() && q.wt >= 1 && q.Digits()[q.wt - 1] == sc
    ensures Val(q.Digits()[..q.wt - 1]) == Val(p.Digits())
  {
    var o := new Printer(ll);
    Tenot(p, sc, o);
    PrintedReads(o.out, ll, p.Digits(), sc);
    q := Readin(o.out, chptr, inbas, tenptr, sqtemp, divxyz);
  }
}
