/** Exponentiation by repeated squaring: `dcexp`. */
module DcExp {
  import opened DcRadix
  import opened DcBlk
  import opened DcMult
  import opened DcDiv
  import opened DcRoot

  /** Repeated multiplication. */
  function Power(b: int, e: nat): int {
    if e == 0 then 1 else b * Power(b, e - 1)
  }

  lemma {:induction false} PowerSquare(b: int, h: nat)
    ensures Power(b * b, h) == Power(b, 2 * h)
  {
    if h > 0 {
      PowerSquare(b, h - 1);
      assert Power(b, 2 * h) == b * Power(b, 2 * h - 1);
      assert Power(b, 2 * h - 1) == b * Power(b, 2 * h - 2);
      assert b * (b * Power(b, 2 * h - 2)) == b * b * Power(b, 2 * h - 2);
    }
  }

  /** One pass of the loop: halve the exponent, square the base, keep the product. */
  lemma SquareStep(r: int, p: int, e: int, h: nat, m: int, r1: int)
    requires e == h * 2 + m && 0 <= m < 2
    requires r1 == if m == 0 then r else p * r
    ensures e >= 0 && r1 * Power(p * p, h) == r * Power(p, e)
  {
    PowerSquare(p, h);
    if m == 1 {
      assert Power(p, e) == p * Power(p, e - 1);
      assert (p * r) * Power(p, 2 * h) == r * (p * Power(p, 2 * h));
    }
  }

  lemma OneValue()
    ensures Val([1]) == 1
  {
    assert Val([]) == 0;
  }

  /** One pass of the squaring loop. */
  method SquarePass(p: Blk, e: Blk, r: Blk, sqtemp: Blk, divxyz: Blk) returns (p1: Blk, e1: Blk, r1: Blk)
    requires p.Valid() && e.Valid() && r.Valid() && sqtemp.Valid() && divxyz.Valid()
    requires p != r && divxyz != e && divxyz != p && divxyz != r && divxyz != sqtemp
    requires sqtemp != p && sqtemp != r && sqtemp.Digits() == [2]
    requires Canonical(p.Digits()) && Canonical(r.Digits()) && IsDigits(e.Digits()) && e.wt > 0
    requires Val(e.Digits()) >= 0
    modifies p`rd, r`rd, sqtemp`rd, divxyz
    ensures p1.Valid() && e1.Valid() && r1.Valid() && sqtemp.Valid() && divxyz.Valid()
    ensures fresh(p1) && fresh(e1) && (r1 == r || fresh(r1)) && p1 != e1 && p1 != r1
    ensures Canonical(p1.Digits()) && Canonical(r1.Digits()) && IsDigits(e1.Digits()) && Canonical(e1.Digits())
    ensures 0 <= Val(e1.Digits()) && Val(e1.Digits()) * 2 <= Val(e.Digits())
    ensures Val(r1.Digits()) * Power(Val(p1.Digits()), Val(e1.Digits()))
         == Val(r.Digits()) * Power(Val(p.Digits()), Val(e.Digits()))
  {
    ghost var ve, vp, vr := Val(e.Digits()), Val(p.Digits()), Val(r.Digits());
    var m;
    e1, m := Halve(e, sqtemp, divxyz);
    ValSign(m.Digits());
    r1 := r;
    if m.wt != 0 {
      r1 := Mult(p, r);
    }
    SquareStep(vr, vp, ve, Val(e1.Digits()), Val(m.Digits()), Val(r1.Digits()));
    var t := new Blk.Copy(p);
    p1 := Mult(p, t);
  }

  /** The squaring loop on private copies: `p^e` for a non-negative exponent. */
  method SquareMultiply(p0: Blk, e0: Blk, sqtemp: Blk, divxyz: Blk) returns (r: Blk)
    requires p0.Valid() && e0.Valid() && sqtemp.Valid() && divxyz.Valid()
    requires sqtemp != divxyz && p0 != sqtemp && p0 != divxyz && e0 != divxyz
    requires Canonical(p0.Digits()) && IsDigits(e0.Digits()) && sqtemp.Digits() == [2]
    modifies p0`rd, sqtemp`rd, divxyz
    ensures sqtemp.Valid() && divxyz.Valid()
    ensures fresh(r) && r.Valid() && Canonical(r.Digits()) && Val(e0.Digits()) >= 0
    ensures Val(r.Digits()) == Power(Val(p0.Digits()), Val(e0.Digits()))
  {
    ValSign(e0.Digits());
    ghost var goal := Power(Val(p0.Digits()), Val(e0.Digits()));
    r := new Blk.Salloc(1);
    r.SputC(1);
    assert r.Digits() == [1];
    OneValue();
    var p, e := p0, e0;
    while e.wt != 0
      invariant p.Valid() && e.Valid() && r.Valid() && sqtemp.Valid() && divxyz.Valid()
      invariant fresh(r) && (p == p0 || fresh(p)) && (e == e0 || fresh(e)) && r != p
      invariant Canonical(p.Digits()) && IsDigits(e.Digits()) && Canonical(r.Digits())
      invariant Val(e.Digits()) >= 0
      invariant Val(r.Digits()) * Power(Val(p.Digits()), Val(e.Digits())) == goal
      decreases Val(e.Digits()), e.wt
    {
      p, e, r := SquarePass(p, e, r, sqtemp, divxyz);
      ValSign(e.Digits());
    }
    assert Val([]) == 0;
  }

  /** What the source returns for a negative exponent, from the digits of the base alone. */
  function Reciprocal(base: seq<int>): int {
    if base == [1] then 1 else if base == [-1] then -1 else 0
  }

  /**
   For a non-negative exponent the result is the power.  For a negative one the
   source looks only at the digits of the base.
   */
  method DcExp(base: Blk, ex: Blk, sqtemp: Blk, divxyz: Blk) returns (r: Blk)
    requires base.Valid() && ex.Valid() && sqtemp.Valid() && divxyz.Valid() && sqtemp != divxyz
    requires base != sqtemp && base != divxyz && ex != divxyz
    requires Canonical(base.Digits()) && IsNum(ex.Digits()) && sqtemp.Digits() == [2]
    modifies base`rd, sqtemp`rd, divxyz
    ensures sqtemp.Valid() && divxyz.Valid() && base.Valid()
    ensures fresh(r) && r.Valid() && Canonical(r.Digits())
    ensures Val(ex.Digits()) >= 0 ==> Val(r.Digits()) == Power(Val(base.Digits()), Val(ex.Digits()))
    ensures Val(ex.Digits()) < 0 ==> Val(r.Digits()) == Reciprocal(base.Digits())
  {
    ValSign(ex.Digits());
    var p := new Blk.Copy(base);
    var e, neg := MagnitudeCopy(ex);
    r := SquareMultiply(p, e, sqtemp, divxyz);
    if neg {
      assert Val([]) == 0;
      if base.wt == 0 {
        PowerOfZero(Val(e.Digits()));
        ValSign(r.Digits());
      } else {
        r := ReciprocalDigit(base, r);
      }
    }
  }

  lemma PowerOfZero(e: nat)
    requires e > 0
    ensures Power(0, e) == 0
  {
  }

  /** The tail of `dcexp` for a negative exponent and a nonzero base. */
  method ReciprocalDigit(base: Blk, r: Blk) returns (r1: Blk)
    requires base.Valid() && r.Valid() && base != r && base.wt > 0 && Canonical(base.Digits())
    modifies base`rd, r
    ensures base.Valid() && r1 == r && r.Valid() && Canonical(r.Digits())
    ensures Val(r.Digits()) == Reciprocal(base.Digits())
  {
    r1 := r;
    var c := base.wt;
    if c > 1 {
      r.Create();
      assert r.Digits() == [];
    } else {
      base.Rewind();
      c := base.SgetC();
      assert base.Digits() == [c];
      r.Create();
      if c <= 1 {
        r.SputC(c);
        assert r.Digits() == [c];
        assert Val([c]) == c by { assert Val([]) == 0; }
      } else {
        assert r.Digits() == [];
      }
    }
  }

  // ---- negative exponents: when the answer is the truncated reciprocal ----

  /** The two spellings of minus one, and the one spelling of one. */
  lemma UnitSpellings(s: seq<int>)
    requires Canonical(s)
    ensures Val(s) == 1 <==> s == [1]
    ensures Val(s) == -1 <==> s == [-1] || s == [99, -1]
  {
    assert Val([]) == 0;
    assert [99, -1][1..] == [-1];
    ValSign(s);
    if |s| > 0 && !IsNeg(s) {
      ValFloor(s);
      if |s| > 1 {
        assert Pow(|s| - 1) == 100 * Pow(|s| - 2);
      } else {
        assert s == [s[0]];
      }
    } else if |s| > 1 && s != [99, -1] {
      var n := |s| - 1;
      ValTop(s);
      ValTop(s[..n]);
      assert s[..n][..n - 1] == s[..n - 1];
      ValBounds(s[..n - 1]);
      MulMono(s[n - 1], 98, Pow(n - 1));
    } else if |s| == 1 {
      assert s == [-1];
    }
  }

  lemma {:induction false} PowerLarge(b: int, e: nat)
    requires e > 0 && Abs(b) >= 2
    ensures Abs(Power(b, e)) >= 2
  {
    if e > 1 {
      PowerLarge(b, e - 1);
      MulAbs(b, Power(b, e - 1));
    } else {
      assert Power(b, 0) == 1;
    }
  }

  lemma {:induction false} PowerUnits(e: nat)
    ensures Power(1, e) == 1
    ensures Power(-1, e) == if e % 2 == 0 then 1 else -1
  {
    if e > 0 {
      PowerUnits(e - 1);
    }
  }

  /** `Reciprocal` is `1 / base^e` truncated toward zero. */
  ghost predicate ReciprocalExact(base: seq<int>, e: nat)
  {
    exists m: int {:trigger TruncDiv(1, Power(Val(base), e), Reciprocal(base), m)} ::
      TruncDiv(1, Power(Val(base), e), Reciprocal(base), m)
  }

  /**
   The shortcut for negative exponents is right except for a base of minus one,
   where it ignores the parity of the exponent and knows only one of the spellings.
   Both callers of `dcexp` pass an exponent that is not negative.
   */
  lemma NegativeExponent(base: seq<int>, e: nat)
    requires Canonical(base) && base != [] && e > 0
    ensures ReciprocalExact(base, e) <==> !(Val(base) == -1 && (base == [99, -1] || e % 2 == 0))
  {
    UnitSpellings(base);
    ValSign(base);
    PowerUnits(e);
    var b := Val(base);
    if b == 1 {
      assert TruncDiv(1, Power(b, e), Reciprocal(base), 0);
    } else if b == -1 {
      if base == [-1] && e % 2 == 1 {
        assert TruncDiv(1, Power(b, e), Reciprocal(base), 0);
      }
    } else {
      PowerLarge(b, e);
      assert TruncDiv(1, Power(b, e), Reciprocal(base), 1);
    }
  }

  /** The failing case spelled out: minus one to the minus two would come out as minus one. */
  lemma MinusOneSquared()
    ensures Reciprocal([-1]) == -1 && Power(Val([-1]), 2) == 1 && !ReciprocalExact([-1], 2)
  {
    assert Val([]) == 0;
    PowerUnits(2);
    NegativeExponent([-1], 2);
  }
}
