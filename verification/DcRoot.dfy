/** Integer square root by Newton's iteration: `dcsqrt`. */
module DcRoot {
  import opened DcRadix
  import opened DcBlk
  import opened DcAdd
  import opened DcMult
  import opened DcDiv

  /** `r` is the integer square root of `p`. */
  ghost predicate IsRoot(p: int, r: int)
  {
    0 <= r && r * r <= p < (r + 1) * (r + 1)
  }

  /** An iterate that is not below the root. */
  ghost predicate NotBelowRoot(p: int, r: int)
  {
    1 <= r && p < (r + 1) * (r + 1)
  }

  lemma RootUnique(p: int, r1: int, r2: int)
    requires IsRoot(p, r1) && IsRoot(p, r2)
    ensures r1 == r2
  {
    if r1 < r2 {
      MulMono2(r1 + 1, r2, r1 + 1, r2);
    } else if r2 < r1 {
      MulMono2(r2 + 1, r1, r2 + 1, r1);
    }
  }

  /** Truncating division of non-negative numbers is the floor. */
  lemma TruncDivNat(a: int, d: int, q: int, r: int)
    requires TruncDiv(a, d, q, r) && 0 <= a && 0 < d
    ensures 0 <= q && 0 <= r < d && a == q * d + r
  {
    if q < 0 {
      MulMono(q, -1, d);
    }
  }

  /** Twice the sum is at least four times the product, with room for the rounding. */
  lemma MeanSquare(a: int, b: int)
    ensures 4 * (a * b) <= (a + b) * (a + b)
  {
    assert (a + b) * (a + b) - 4 * (a * b) == (a - b) * (a - b);
    assert (a - b) * (a - b) >= 0;
  }

  /**
   One Newton step from above the root: the next iterate is still not below the
   root, and if it is not smaller than the last one then the last one is the root.
   */
  lemma NewtonStep(p: int, r: int, x: int, y: int, m: int, m2: int)
    requires 1 <= p && NotBelowRoot(p, r)
    requires p == x * r + m && 0 <= m < r && 0 <= x
    requires x + r == y * 2 + m2 && 0 <= m2 < 2
    ensures NotBelowRoot(p, y)
    ensures y >= r ==> IsRoot(p, r)
  {
    MeanSquare(x + 1, r);
    assert (x + 1) * r == x * r + r;
    var h := x + 1 + r;
    assert h <= 2 * (y + 1);
    MulMono2(h, 2 * (y + 1), h, 2 * (y + 1));
    assert (2 * (y + 1)) * (2 * (y + 1)) == 4 * ((y + 1) * (y + 1));
    if y >= r {
      MulMono(r, x, r);
    }
  }

  /** The odd-number loop: one more than the integer root of a small number. */
  method SmallRoot(c0: int) returns (c: int)
    requires 1 <= c0 <= 9999
    ensures 2 <= c <= 100 && c0 < c * c && (c - 1) * (c - 1) <= c0
  {
    c := c0;
    var nn := 1;
    ghost var k := 0;
    c := c - nn;
    while c >= 0
      invariant nn == 2 * k + 1 && 0 <= k && k * k <= c0
      invariant c == c0 - (k + 1) * (k + 1)
      decreases c
    {
      nn := nn + 2;
      assert (k + 2) * (k + 2) == (k + 1) * (k + 1) + nn;
      k := k + 1;
      c := c - nn;
    }
    assert k <= 99 by {
      if k >= 100 { MulMono2(100, k, 100, k); }
    }
    c := (nn + 1) / 2;
    assert c == k + 1;
  }

  /** The leading one or two digits that the starting value is taken from. */
  function RootLead(s: seq<int>): int {
    if |s| % 2 == 1 then Lead(s, 0) else Lead(s, 0) * 100 + Lead(s, 1)
  }

  lemma RootLeadOdd(s: seq<int>)
    requires IsDigits(s) && |s| % 2 == 1
    ensures Val(s) < (RootLead(s) + 1) * Pow(|s| - 1)
  {
    var n := |s| - 1;
    ValTop(s);
    ValBounds(s[..n]);
    SumMul(s[n], 1, Pow(n));
  }

  lemma RootLeadEven(s: seq<int>)
    requires IsDigits(s) && |s| % 2 == 0 && |s| > 0
    ensures Val(s) < (RootLead(s) + 1) * Pow(|s| - 2)
  {
    var n := |s| - 2;
    ValTop(s);
    ValTop(s[..n + 1]);
    assert s[..n + 1][..n] == s[..n];
    ValBounds(s[..n]);
    TwoLead(s[n + 1], s[n], Pow(n), Pow(n + 1), RootLead(s));
  }

  /** A number is below its leading part plus one, at that part's weight. */
  lemma RootLeadBound(s: seq<int>)
    requires IsDigits(s) && |s| > 0 && s[|s| - 1] != 0
    ensures 1 <= RootLead(s) <= 9999
    ensures var w := Pow((|s| - 1) / 2); Val(s) < (RootLead(s) + 1) * (w * w)
  {
    var h := (|s| - 1) / 2;
    PowAdd(h, h);
    if |s| % 2 == 1 {
      RootLeadOdd(s);
      assert |s| - 1 == h + h;
    } else {
      RootLeadEven(s);
      assert |s| - 2 == h + h;
    }
  }

  lemma TwoLead(a: int, b: int, w: int, w1: int, c: int)
    requires w1 == 100 * w && c == a * 100 + b
    ensures b * w + a * w1 + w == (c + 1) * w
  {
    SumMul(a * 100, b + 1, w);
    SumMul(b, 1, w);
  }

  /** The starting value `c * 100^(n-1)` is above the root. */
  lemma StartAbove(p: int, c0: int, c: int, w: int)
    requires p < (c0 + 1) * (w * w) && c0 < c * c && 0 < w && 1 <= c
    ensures NotBelowRoot(p, c * w)
  {
    MulMono2(1, c, 1, w);
    MulMono(c0 + 1, c * c, w * w);
    assert (c * c) * (w * w) == (c * w) * (c * w);
    assert (c * w + 1) * (c * w + 1) == (c * w) * (c * w) + 2 * (c * w) + 1;
    assert 0 <= c * w;
  }

  method LeadForRoot(p: Blk) returns (c: int)
    requires p.Valid() && p.wt > 0
    modifies p`rd
    ensures p.Valid() && c == RootLead(p.Digits())
  {
    var n := p.wt;
    p.FsFile();
    c := p.SbackC();
    if n % 2 != 1 {
      var e := BackOrZero(p);
      c := c * 100 + e;
    }
  }

  /** `c` at position `n - 1` of a cleared block; 100 spills into one more digit. */
  method PlaceLead(n: nat, c: int) returns (r: Blk)
    requires n > 0 && 2 <= c <= 100
    ensures fresh(r) && r.Valid() && IsDigits(r.Digits()) && Canonical(r.Digits())
    ensures Val(r.Digits()) == c * Pow(n - 1)
  {
    r := new Blk.Salloc(n);
    r.Zero();
    r.SeekC(n);
    r.FsFile();
    r.BackC();
    ghost var z := r.Digits()[..n - 1];
    assert r.Digits() == z + [0];
    if c >= 100 {
      r.SalterC(c - 100);
      r.SputC(1);
      assert r.Digits() == z + [0] + [1];
    } else {
      r.SalterC(c);
      assert r.Digits() == z + [c];
    }
    StartValue(z, c, r.Digits());
  }

  /** The starting value of the iteration. */
  method StartRoot(p: Blk) returns (r: Blk)
    requires p.Valid() && IsDigits(p.Digits()) && p.wt > 0 && p.Digits()[p.wt - 1] != 0
    modifies p`rd
    ensures p.Valid() && fresh(r) && r.Valid() && IsDigits(r.Digits()) && Canonical(r.Digits())
    ensures NotBelowRoot(Val(p.Digits()), Val(r.Digits()))
  {
    var n := (p.wt + 1) / 2;
    RootLeadBound(p.Digits());
    var c := LeadForRoot(p);
    var c1 := SmallRoot(c);
    r := PlaceLead(n, c1);
    StartAbove(Val(p.Digits()), c, c1, Pow(n - 1));
  }

  lemma StartValue(z: seq<int>, c: int, s: seq<int>)
    requires (forall i :: 0 <= i < |z| ==> z[i] == 0) && 2 <= c <= 100
    requires s == if c >= 100 then z + [0] + [1] else z + [c]
    ensures Val(s) == c * Pow(|z|) && 1 <= Val(s)
  {
    ValZeros(z);
    ValSnoc(z, c);
    if c >= 100 {
      ValSnoc(z, 0);
      ValSnoc(z + [0], 1);
    }
    MulMono(2, c, Pow(|z|));
  }

  lemma HalfParts(s: seq<int>, two: seq<int>, q: seq<int>, m: seq<int>)
    requires TruncDiv(Val(s), Val(two), Val(q), Val(m)) && two == [2] && Val(s) >= 0 && Canonical(q)
    ensures IsDigits(q) && 0 <= Val(q) && 0 <= Val(m) < 2 && Val(s) == Val(q) * 2 + Val(m)
  {
    assert Val([2]) == 2;
    TruncDivNat(Val(s), 2, Val(q), Val(m));
    ValSign(q);
  }

  /** Quotient and remainder on division by `sqtemp`, which holds two. */
  method Halve(s: Blk, sqtemp: Blk, divxyz: Blk) returns (q: Blk, m: Blk)
    requires s.Valid() && sqtemp.Valid() && divxyz.Valid() && divxyz != s && divxyz != sqtemp
    requires IsNum(s.Digits()) && Val(s.Digits()) >= 0 && sqtemp.Digits() == [2]
    modifies sqtemp`rd, divxyz
    ensures sqtemp.Valid() && divxyz.Valid() && fresh(q) && q.Valid() && fresh(m) && m.Valid() && q != m
    ensures Canonical(q.Digits()) && IsDigits(q.Digits()) && IsNum(m.Digits())
    ensures Canonical(s.Digits()) || s.wt > 0 ==> Canonical(m.Digits())
    ensures 0 <= Val(q.Digits()) && 0 <= Val(m.Digits()) < 2
    ensures Val(s.Digits()) == Val(q.Digits()) * 2 + Val(m.Digits())
  {
    ValSign(s.Digits());
    assert Val([2]) == 2;
    q, m := Div(s, sqtemp, divxyz);
    HalfParts(s.Digits(), sqtemp.Digits(), q.Digits(), m.Digits());
  }

  /** The next iterate `(p/r + r)/2`. */
  method NextIterate(p: Blk, r: Blk, sqtemp: Blk, divxyz: Blk) returns (q: Blk)
    requires p.Valid() && r.Valid() && sqtemp.Valid() && divxyz.Valid()
    requires p != r && divxyz != p && divxyz != r && divxyz != sqtemp && sqtemp != r && sqtemp != p
    requires IsDigits(p.Digits()) && Canonical(r.Digits()) && IsDigits(r.Digits()) && sqtemp.Digits() == [2]
    requires 1 <= Val(p.Digits()) && NotBelowRoot(Val(p.Digits()), Val(r.Digits()))
    modifies r`rd, sqtemp`rd, divxyz
    ensures r.Valid() && sqtemp.Valid() && divxyz.Valid()
    ensures fresh(q) && q.Valid() && Canonical(q.Digits()) && IsDigits(q.Digits())
    ensures NotBelowRoot(Val(p.Digits()), Val(q.Digits()))
    ensures Val(q.Digits()) >= Val(r.Digits()) ==> IsRoot(Val(p.Digits()), Val(r.Digits()))
  {
    ghost var vp, vr := Val(p.Digits()), Val(r.Digits());
    var x, m := Div(p, r, divxyz);
    ghost var vx, vm := Val(x.Digits()), Val(m.Digits());
    TruncDivNat(vp, vr, vx, vm);
    var s := Add(x, r);
    var m2;
    q, m2 := Halve(s, sqtemp, divxyz);
    NewtonStep(vp, vr, vx, Val(q.Digits()), vm, Val(m2.Digits()));
  }

  /** Whether `q` has stopped falling below `r`: the sign of `q - r`. */
  method NotBelow(q: Blk, r: Blk) returns (stop: bool)
    requires q.Valid() && r.Valid() && IsDigits(q.Digits()) && IsDigits(r.Digits())
    modifies q`rd
    ensures q.Valid() && (stop <==> Val(q.Digits()) >= Val(r.Digits()))
  {
    var s := new Blk.Copy(r);
    ChSign(s);
    var t := Add(s, q);
    ValSign(t.Digits());
    t.FsFile();
    var nn := 0;
    if !t.SfBeg() {
      nn := t.SbackC();
    }
    stop := nn >= 0;
  }

  /** Terminates with the integer square root of every positive number. */
  method DcSqrt(p: Blk, sqtemp: Blk, divxyz: Blk) returns (r: Blk)
    requires p.Valid() && sqtemp.Valid() && divxyz.Valid()
    requires divxyz != p && divxyz != sqtemp && sqtemp != p
    requires Canonical(p.Digits()) && Val(p.Digits()) > 0 && sqtemp.Digits() == [2]
    modifies p`rd, sqtemp`rd, divxyz
    ensures fresh(r) && r.Valid() && Canonical(r.Digits())
    ensures IsRoot(Val(p.Digits()), Val(r.Digits()))
  {
    ValSign(p.Digits());
    r := StartRoot(p);
    while true
      invariant p.Valid() && r.Valid() && sqtemp.Valid() && divxyz.Valid() && fresh(r)
      invariant Canonical(r.Digits()) && IsDigits(r.Digits())
      invariant NotBelowRoot(Val(p.Digits()), Val(r.Digits()))
      decreases Val(r.Digits())
    {
      var q := NextIterate(p, r, sqtemp, divxyz);
      var stop := NotBelow(q, r);
      if stop {
        break;
      }
      r := q;
    }
  }
}
