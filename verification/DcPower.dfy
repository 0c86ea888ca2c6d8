/** The command `^` of dc on a base without decimal places. */
module DcPower {
  import opened DcRadix
  import opened DcBlk
  import opened DcAdd
  import opened DcDiv
  import opened DcExp
  import opened DcText

  /** Done, with a scale; or one of the two complaints. */
  datatype Status = Raised(scale: nat) | TooBig | DividedByZero

  /** How large the result of `^` has to be: the power, or one over it to `k` places. */
  ghost predicate RaisedTo(b: int, e: int, k: nat, scale: nat, v: int) {
    if e >= 0 then scale == 0 && v == Power(b, e)
    else scale == k && TruncatedTo(Power(10, k), Power(b, -e), v)
  }

  /** `v` is `a` divided by `d`, truncated. */
  ghost predicate TruncatedTo(a: int, d: int, v: int) {
    exists r :: TruncDiv(a, d, v, r)
  }

  /** An exponent is too big exactly from ten thousand on. */
  lemma TwoDigits(s: seq<int>)
    requires Canonical(s) && IsDigits(s)
    ensures |s| >= 3 <==> Val(s) >= 10000
  {
    assert Pow(2) == 100 * Pow(1) && Pow(1) == 100 * Pow(0);
    if |s| >= 3 {
      ValFloor(s);
      PowMono(2, |s| - 1);
    } else {
      ValBounds(s);
      PowMono(|s|, 2);
    }
  }

  lemma PowerZero(b: int, n: nat)
    ensures Power(b, n) == 0 <==> b == 0 && n > 0
  {
    if n > 0 {
      PowerZero(b, n - 1);
      if b != 0 {
        assert Power(b, n) == b * Power(b, n - 1);
      }
    }
  }

  /** The sign of the exponent, taken off it. */
  method TakeSign(ex: Blk) returns (neg: bool)
    requires ex.Valid() && Canonical(ex.Digits())
    modifies ex
    ensures ex.Valid() && Canonical(ex.Digits()) && IsDigits(ex.Digits()) && neg == (old(Val(ex.Digits())) < 0)
    ensures Val(ex.Digits()) == if neg then -old(Val(ex.Digits())) else old(Val(ex.Digits()))
  {
    ValSign(ex.Digits());
    neg := false;
    ex.FsFile();
    if !ex.SfBeg() {
      var c := ex.SbackC();
      if c < 0 {
        neg := true;
        ChSign(ex);
      }
    }
  }

  /** Ten to the power `k`, as one with `k` zeros added. */
  method TenTo(k: nat, tenptr: Blk) returns (t: Blk)
    requires tenptr.Valid() && tenptr.Digits() == [10]
    modifies tenptr`rd
    ensures tenptr.Valid() && fresh(t) && t.Valid() && IsNum(t.Digits()) && Val(t.Digits()) == Power(10, k)
  {
    var one := new Blk.Salloc(2);
    assert one.Digits() == [];
    one.SputC(1);
    assert one.Digits() == [1];
    OneValue();
    t := Add0(one, k, tenptr);
  }

  /** One over a number, to `k` places. */
  method OneOver(p: Blk, k: nat, tenptr: Blk, divxyz: Blk) returns (q: Blk?)
    requires p.Valid() && tenptr.Valid() && divxyz.Valid() && p != divxyz && tenptr != divxyz && p != tenptr
    requires Canonical(p.Digits()) && tenptr.Digits() == [10]
    modifies p`rd, tenptr`rd, divxyz
    ensures q == null <==> Val(p.Digits()) == 0
    ensures q != null ==> fresh(q) && q.Valid() && Canonical(q.Digits())
    ensures q != null ==> TruncatedTo(Power(10, k), Val(p.Digits()), Val(q.Digits()))
  {
    ValSign(p.Digits());
    q := null;
    p.FsFile();
    if !p.SfBeg() {
      var t := TenTo(k, tenptr);
      var rem;
      q, rem := Div(t, p, divxyz);
      assert TruncDiv(Power(10, k), Val(p.Digits()), Val(q.Digits()), Val(rem.Digits()));
    }
  }

  /**
   `^`: the power for an exponent that is not negative, and for a negative one the
   truncated quotient of one by the power, to as many places as the precision asks. That
   holds for every base, both spellings of minus one among them: the exponent loses its
   sign before `dcexp` is called.
   */
  method Raise(base: Blk, ex: Blk, k: nat, tenptr: Blk, sqtemp: Blk, divxyz: Blk) returns (status: Status, q: Blk?)
    requires base.Valid() && ex.Valid() && tenptr.Valid() && sqtemp.Valid() && divxyz.Valid()
    requires base != ex && base != sqtemp && base != divxyz && ex != sqtemp && ex != tenptr && ex != divxyz
    requires tenptr != divxyz && sqtemp != divxyz
    requires Canonical(base.Digits()) && Canonical(ex.Digits()) && tenptr.Digits() == [10] && sqtemp.Digits() == [2]
    modifies base`rd, ex, tenptr`rd, sqtemp`rd, divxyz
    ensures status.TooBig? <==> Abs(old(Val(ex.Digits()))) >= 10000
    ensures status.DividedByZero? <==> !status.TooBig? && old(Val(ex.Digits())) < 0 && Val(base.Digits()) == 0
    ensures status.Raised? ==>
              && q != null && q.Valid() && Canonical(q.Digits())
              && RaisedTo(Val(base.Digits()), old(Val(ex.Digits())), k, status.scale, Val(q.Digits()))
  {
    ghost var e, b := Val(ex.Digits()), Val(base.Digits());
    q := null;
    var neg := TakeSign(ex);
    TwoDigits(ex.Digits());
    if ex.wt >= 3 {
      return TooBig, null;
    }
    var p := DcExp.DcExp(base, ex, sqtemp, divxyz);
    PowerZero(b, Val(ex.Digits()));
    if !neg {
      return Raised(0), p;
    }
    q := OneOver(p, k, tenptr, divxyz);
    if q == null {
      return DividedByZero, null;
    }
    return Raised(k), q;
  }

  /** At precision zero: one divided by the power, truncated, whatever the base. */
  lemma ReciprocalAtZero(b: int, e: int, v: int)
    requires e < 0 && b != 0 && RaisedTo(b, e, 0, 0, v)
    ensures b == 1 ==> v == 1
    ensures b == -1 ==> v == if e % 2 == 0 then 1 else -1
    ensures Abs(b) >= 2 ==> v == 0
  {
    var r: int :| TruncDiv(Power(10, 0), Power(b, -e), v, r);
    PowerUnits(-e);
    if Abs(b) >= 2 {
      PowerLarge(b, -e);
      assert TruncDiv(1, Power(b, -e), 0, 1);
      TruncDivUnique(1, Power(b, -e), v, r, 0, 1);
    }
  }
}
