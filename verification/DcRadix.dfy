/**
 Base-100 place value, as used by every number that `dc` keeps in a `Blk`:
 digits are little-endian and lie in 0..99, and a number below zero carries one
 extra top digit -1 (a hundred's complement).
 */
module DcRadix {

  /** One hundred to the power `n`. */
  function Pow(n: nat): (p: int)
    ensures p >= 1
  {
    if n == 0 then 1 else 100 * Pow(n - 1)
  }

  /** The integer that a little-endian digit string stands for. */
  function Val(s: seq<int>): int
  {
    if s == [] then 0 else s[0] + 100 * Val(s[1..])
  }

  /** Plain digits, no sign. */
  ghost predicate IsDigits(s: seq<int>)
  {
    forall i :: 0 <= i < |s| ==> 0 <= s[i] <= 99
  }

  /** Digits 0..99 everywhere except that the top one may be -1. */
  ghost predicate IsNum(s: seq<int>)
  {
    && (forall i :: 0 <= i < |s| - 1 ==> 0 <= s[i] <= 99)
    && (|s| > 0 ==> -1 <= s[|s| - 1] <= 99)
  }

  /**
   The form that all of dc's arithmetic hands on: no leading zero, and no 99
   below the sign digit except in `[99,-1]`, one of the two spellings of -1.
   */
  ghost predicate Canonical(s: seq<int>)
  {
    && IsNum(s)
    && (|s| > 0 ==> s[|s| - 1] != 0)
    && (|s| > 1 && s[|s| - 1] == -1 ==> s[|s| - 2] != 99 || s == [99, -1])
  }

  predicate IsNeg(s: seq<int>) {
    |s| > 0 && s[|s| - 1] == -1
  }

  lemma {:induction false} PowAdd(a: nat, b: nat)
    ensures Pow(a + b) == Pow(a) * Pow(b)
    decreases b
  {
    if b > 0 {
      PowAdd(a, b - 1);
      assert Pow(a + b) == 100 * Pow(a + b - 1);
      assert 100 * (Pow(a) * Pow(b - 1)) == Pow(a) * (100 * Pow(b - 1));
    }
  }

  lemma {:induction false} PowMono(a: nat, b: nat)
    requires a <= b
    ensures Pow(a) <= Pow(b)
    decreases b
  {
    if a < b {
      PowMono(a, b - 1);
    }
  }

  lemma {:induction false} ValSnoc(s: seq<int>, d: int)
    ensures Val(s + [d]) == Val(s) + d * Pow(|s|)
    decreases |s|
  {
    if s == [] {
      assert s + [d] == [d] && Val([]) == 0;
    } else {
      ValSnoc(s[1..], d);
      assert (s + [d])[1..] == s[1..] + [d];
      assert 100 * (d * Pow(|s| - 1)) == d * (100 * Pow(|s| - 1));
    }
  }

  lemma ValTop(s: seq<int>)
    requires |s| > 0
    ensures Val(s) == Val(s[..|s| - 1]) + s[|s| - 1] * Pow(|s| - 1)
  {
    var n := |s| - 1;
    ValSnoc(s[..n], s[n]);
    assert s == s[..n] + [s[n]];
  }

  lemma ValPrefix(s: seq<int>, i: nat)
    requires i < |s|
    ensures Val(s[..i + 1]) == Val(s[..i]) + s[i] * Pow(i)
  {
    assert s[..i + 1] == s[..i] + [s[i]];
    ValSnoc(s[..i], s[i]);
  }

  lemma {:induction false} ValSplit(s: seq<int>, k: nat)
    requires k <= |s|
    ensures Val(s) == Val(s[..k]) + Pow(k) * Val(s[k..])
    decreases |s|
  {
    if k == 0 {
      assert s[..0] == [] && s[0..] == s;
    } else {
      ValSplit(s[1..], k - 1);
      assert s[..k][1..] == s[1..][..k - 1];
      assert s[k..] == s[1..][k - 1..];
      assert 100 * (Pow(k - 1) * Val(s[k..])) == (100 * Pow(k - 1)) * Val(s[k..]);
    }
  }

  lemma {:induction false} ValUpdate(s: seq<int>, k: nat, d: int)
    requires k < |s|
    ensures Val(s[k := d]) == Val(s) + (d - s[k]) * Pow(k)
    decreases |s|
  {
    if k == 0 {
      assert s[0 := d][1..] == s[1..];
    } else {
      ValUpdate(s[1..], k - 1, d);
      assert s[k := d][1..] == s[1..][k - 1 := d];
      var e := d - s[k];
      assert 100 * (e * Pow(k - 1)) == e * (100 * Pow(k - 1));
    }
  }

  lemma ValCons(d: int, s: seq<int>)
    ensures Val([d] + s) == d + 100 * Val(s)
  {
    assert ([d] + s)[1..] == s;
  }

  lemma {:induction false} ValBounds(s: seq<int>)
    requires IsDigits(s)
    ensures 0 <= Val(s) < Pow(|s|)
    decreases |s|
  {
    if s != [] {
      ValBounds(s[1..]);
    }
  }

  lemma MulMono(a: int, b: int, c: int)
    requires a <= b && c >= 0
    ensures a * c <= b * c
  {
  }

  /** A canonical number below zero really is below zero, and one above is above. */
  lemma ValSign(s: seq<int>)
    requires IsNum(s)
    ensures IsNeg(s) <==> Val(s) < 0
    ensures Canonical(s) ==> (s == [] <==> Val(s) == 0)
    ensures !IsNeg(s) ==> IsDigits(s)
  {
    if s != [] {
      var n := |s| - 1;
      ValBounds(s[..n]);
      ValTop(s);
      if s[n] == -1 {
        assert s[n] * Pow(n) == -1 * Pow(n);
      } else if s[n] > 0 {
        MulMono(1, s[n], Pow(n));
      }
    }
  }

  /** Two digit strings that agree position by position have the same value. */
  lemma {:induction false} ValZeros(s: seq<int>)
    requires forall i :: 0 <= i < |s| ==> s[i] == 0
    ensures Val(s) == 0
    decreases |s|
  {
    if s != [] {
      ValZeros(s[1..]);
    }
  }

  /** A nonzero top digit puts a floor under the value. */
  lemma ValFloor(s: seq<int>)
    requires IsDigits(s) && |s| > 0 && s[|s| - 1] != 0
    ensures Pow(|s| - 1) <= Val(s) < Pow(|s|)
  {
    ValBounds(s);
    ValBounds(s[..|s| - 1]);
    ValTop(s);
    MulMono(1, s[|s| - 1], Pow(|s| - 1));
  }
}
