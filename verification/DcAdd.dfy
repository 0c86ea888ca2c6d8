/** Sign change and addition: `chsign` and `add`. */
module DcAdd {
  import opened DcRadix
  import opened DcBlk

  /** Replacing a 99 below the sign digit by the sign digit keeps the value. */
  lemma SignFold(s: seq<int>)
    requires |s| >= 2 && s[|s| - 1] == -1 && s[|s| - 2] == 99
    ensures Val(s[..|s| - 2] + [-1]) == Val(s)
  {
    var k := |s| - 2;
    ValSnoc(s[..k], -1);
    ValPrefix(s, k);
    ValPrefix(s, k + 1);
    assert s[..k + 2] == s;
  }

  /** One digit of the hundred's complement: `-d - c + 100*c'`. */
  lemma ComplementStep(before: seq<int>, now: seq<int>, i: nat, c0: int, ct: int, c1: int)
    requires i < |before| == |now|
    requires Val(now[..i]) == c0 * Pow(i) - Val(before[..i])
    requires ct == 100 * c1 - before[i] - c0
    ensures Val(now[i := ct][..i + 1]) == c1 * Pow(i + 1) - Val(before[..i + 1])
  {
    var t := now[i := ct];
    assert t[..i] == now[..i];
    ValPrefix(t, i);
    ValPrefix(before, i);
    var p := Pow(i);
    assert ct * p == c1 * (100 * p) - before[i] * p - c0 * p;
  }

  /** The complement of a negative number has no carry left, of a positive one it has. */
  lemma ComplementCarry(s: seq<int>, t: seq<int>, carry: int)
    requires IsNum(s) && IsDigits(t) && |s| == |t|
    requires (carry == 0 || carry == 1) && Val(t) == carry * Pow(|s|) - Val(s)
    ensures IsNeg(s) ==> carry == 0
    ensures Canonical(s) && s != [] && !IsNeg(s) ==> carry == 1
  {
    ValSign(s);
    ValBounds(t);
  }

  /** Negating a canonical negative number leaves at most one leading zero. */
  lemma ComplementOfNegative(s: seq<int>, t: seq<int>)
    requires Canonical(s) && IsNeg(s) && IsDigits(t) && |s| == |t|
    requires Val(t) == -Val(s) && t[|t| - 1] == 0
    ensures |t| > 1 && t[|t| - 2] != 0
  {
    var n := |s| - 1;
    ValTop(s);
    ValTop(t);
    assert s[n] * Pow(n) == -1 * Pow(n);
    assert t[n] * Pow(n) == 0;
    assert n > 0;
    ValTop(s[..n]);
    ValTop(t[..n]);
    assert s[..n][..n - 1] == s[..n - 1];
    assert t[..n][..n - 1] == t[..n - 1];
    ValBounds(s[..n - 1]);
    ValBounds(t[..n - 1]);
    var p := Pow(n - 1);
    assert s[n - 1] == 99 ==> s[..n - 1] == [];
    assert Val(s[..n]) <= 99 * p by {
      MulMono(s[n - 1], 99, p);
      if s[n - 1] != 99 {
        MulMono(s[n - 1], 98, p);
      }
    }
    assert Val(t[..n]) >= p;
  }

  /** Negating a canonical positive number gives a 99 at the top only above a zero. */
  lemma ComplementOfPositive(s: seq<int>, t: seq<int>)
    requires Canonical(s) && !IsNeg(s) && IsDigits(t) && |s| == |t| > 1
    requires Val(t) == Pow(|s|) - Val(s) && t[|t| - 1] == 99
    ensures t[|t| - 2] == 0
  {
    var n := |s| - 1;
    ValFloor(s);
    ValTop(t);
    ValTop(t[..n]);
    assert t[..n][..n - 1] == t[..n - 1];
    ValBounds(t[..n - 1]);
    NoRoom(t[n - 1], Pow(n - 1), Val(t[..n - 1]));
  }

  lemma NoRoom(e: int, w: int, low: int)
    requires 0 <= e && 0 < w && 0 <= low && low + e * w <= 0
    ensures e == 0
  {
  }

  /** The digit loop of `chsign`. */
  method Complement(p: Blk) returns (carry: int)
    requires p.Valid() && IsNum(p.Digits())
    modifies p
    ensures p.Valid() && IsDigits(p.Digits()) && p.wt == old(p.wt)
    ensures carry == 0 || carry == 1
    ensures Val(p.Digits()) == carry * Pow(p.wt) - Val(old(p.Digits()))
  {
    ghost var s := p.Digits();
    carry := 0;
    p.Rewind();
    while !p.SfEof()
      invariant p.Valid() && p.rd <= p.wt == |s|
      invariant carry == 0 || carry == 1
      invariant p.Digits()[p.rd..] == s[p.rd..]
      invariant IsDigits(p.Digits()[..p.rd])
      invariant Val(p.Digits()[..p.rd]) == carry * Pow(p.rd) - Val(s[..p.rd])
      decreases p.wt - p.rd
    {
      ghost var i, c0, before := p.rd, carry, p.Digits();
      assert before[i] == before[i..][0] == s[i];
      var ct := 100 - p.SlookC() - carry;
      carry := 1;
      if ct >= 100 {
        ct := ct - 100;
        carry := 0;
      }
      p.SalterC(ct);
      ComplementStep(s, before, i, c0, ct, carry);
      assert p.Digits()[p.rd..] == before[i..][1..];
      assert p.Digits()[..p.rd] == before[..i] + [ct];
    }
    assert s[..|s|] == s;
    assert p.Digits()[..p.rd] == p.Digits();
  }

  /** A complement with the sign digit put on, and a 99 below it folded away. */
  function WithSign(t: seq<int>): (r: seq<int>)
    requires |t| > 0
  {
    if t[|t| - 1] == 99 then t[..|t| - 1] + [-1] else t + [-1]
  }

  /** A complement without its leading zero. */
  function WithoutZero(t: seq<int>): (r: seq<int>)
  {
    if |t| > 0 && t[|t| - 1] == 0 then t[..|t| - 1] else t
  }

  lemma WithSignValue(s: seq<int>, t: seq<int>)
    requires IsNum(s) && IsDigits(t) && |s| == |t| > 0
    requires Val(t) == Pow(|s|) - Val(s)
    ensures IsNum(WithSign(t)) && Val(WithSign(t)) == -Val(s)
    ensures Canonical(s) ==> Canonical(WithSign(t))
  {
    ComplementCarry(s, t, 1);
    ValSnoc(t, -1);
    if t[|t| - 1] == 99 {
      SignFold(t + [-1]);
      assert (t + [-1])[..|t| - 1] == t[..|t| - 1];
      if Canonical(s) && |t| > 1 {
        ComplementOfPositive(s, t);
      }
    }
  }

  lemma WithoutZeroValue(s: seq<int>, t: seq<int>)
    requires IsNum(s) && IsDigits(t) && |s| == |t|
    requires Val(t) == -Val(s)
    ensures IsDigits(WithoutZero(t)) && Val(WithoutZero(t)) == -Val(s)
    ensures Canonical(s) ==> Canonical(WithoutZero(t))
  {
    ComplementCarry(s, t, 0);
    if |t| > 0 && t[|t| - 1] == 0 {
      ValTop(t);
      if Canonical(s) {
        ComplementOfNegative(s, t);
      }
    }
  }

  /** Negates in place.  Negation keeps the canonical form, including `[99,-1]` to `[1]`. */
  method ChSign(p: Blk)
    requires p.Valid() && IsNum(p.Digits())
    modifies p
    ensures p.Valid() && IsNum(p.Digits())
    ensures Val(p.Digits()) == -Val(old(p.Digits()))
    ensures Canonical(old(p.Digits())) ==> Canonical(p.Digits())
    ensures IsNeg(old(p.Digits())) ==> IsDigits(p.Digits())
  {
    ghost var s := p.Digits();
    var carry := Complement(p);
    ghost var t := p.Digits();
    ComplementCarry(s, t, carry);
    if carry != 0 {
      p.SputC(-1);
      p.FsFile();
      p.BackC();
      var ct := p.SbackC();
      assert ct == t[|t| - 1];
      if ct == 99 {
        p.Truncate();
        p.SputC(-1);
      }
      assert p.Digits() == WithSign(t);
      WithSignValue(s, t);
    } else {
      p.FsFile();
      var ct := p.SbackC();
      if ct == 0 {
        p.Truncate();
      }
      assert p.Digits() == WithoutZero(t);
      WithoutZeroValue(s, t);
    }
  }

  // ---- add ----

  /** The digit at position `i`, with zeros understood above the top. */
  function At(s: seq<int>, i: nat): int {
    if i < |s| then s[i] else 0
  }

  function Low(s: seq<int>, i: nat): seq<int> {
    if i <= |s| then s[..i] else s
  }

  lemma LowStep(s: seq<int>, i: nat)
    ensures Val(Low(s, i + 1)) == Val(Low(s, i)) + At(s, i) * Pow(i)
  {
    if i < |s| {
      ValPrefix(s, i);
    } else if i == |s| {
      assert s[..i] == s;
    }
  }

  /** `s` without its leading zeros. */
  function TrimZeros(s: seq<int>): (r: seq<int>)
    ensures Val(r) == Val(s)
    ensures |r| <= |s| && r == s[..|r|]
    ensures |r| > 0 ==> r[|r| - 1] != 0
    ensures |r| < |s| ==> s[|s| - 1] == 0
  {
    if |s| > 0 && s[|s| - 1] == 0 then ValTop(s); TrimZeros(s[..|s| - 1]) else s
  }

  /** The trimming loop at the end of `add`. */
  method Trim(p: Blk)
    requires p.Valid()
    modifies p
    ensures p.Valid() && p.Digits() == TrimZeros(old(p.Digits()))
  {
    ghost var s := p.Digits();
    p.FsFile();
    if !p.SfBeg() {
      var c := 0;
      assert s[..p.rd] == s;
      while !p.SfBeg() && c == 0
        invariant p.Valid() && p.Digits() == s && p.rd <= p.wt
        invariant c == 0 ==> TrimZeros(s) == TrimZeros(s[..p.rd])
        invariant c != 0 ==> p.rd < p.wt && c == s[p.rd] && TrimZeros(s) == s[..p.rd + 1]
        decreases p.rd + if c == 0 then 1 else 0
      {
        assert s[..p.rd][..p.rd - 1] == s[..p.rd - 1];
        c := p.SbackC();
      }
      if c != 0 {
        p.SalterC(c);
      }
      p.Truncate();
      assert p.Digits() == TrimZeros(s);
    }
  }

  /** The low `k` digits of `s` under a sign digit. */
  function Folded(s: seq<int>, k: nat): seq<int>
    requires k <= |s|
  {
    s[..k] + [-1]
  }

  lemma FoldStep(s: seq<int>, k: nat)
    requires 0 < k <= |s| && s[k - 1] == 99
    ensures Val(Folded(s, k - 1)) == Val(Folded(s, k))
  {
    SignFold(Folded(s, k));
    assert Folded(s, k)[..k - 1] == s[..k - 1];
  }

  lemma FoldedCanonical(s: seq<int>, k: nat)
    requires IsNum(s) && 0 < k < |s|
    requires s[k - 1] != 99 || k == 1
    ensures Canonical(Folded(s, k))
  {
    var r := Folded(s, k);
    if s[k - 1] == 99 {
      assert r == [99, -1];
    } else {
      assert r[|r| - 2] == s[k - 1];
    }
  }

  /** The loop at the end of `add` that folds a run of 99s into the sign digit. */
  method FoldNines(p: Blk)
    requires p.Valid() && IsNum(p.Digits()) && (|p.Digits()| > 0 ==> p.Digits()[p.wt - 1] != 0)
    requires IsNeg(p.Digits()) ==> p.wt >= 2
    modifies p
    ensures p.Valid() && Canonical(p.Digits())
    ensures Val(p.Digits()) == Val(old(p.Digits()))
  {
    ghost var s := p.Digits();
    p.FsFile();
    var c := 0;
    if !p.SfBeg() {
      c := p.SbackC();
    }
    if c == -1 {
      c := 99;
      ghost var k := p.rd;
      assert Folded(s, k) == s;
      while c == 99
        invariant p.Valid() && p.data == old(p.data) && p.wt == |s|
        invariant 0 < k < |s| && Val(Folded(s, k)) == Val(s)
        invariant c == 99 ==> k == p.rd || (k == 1 && p.rd == 0 && s[0] == 99)
        invariant c != 99 ==> p.rd == k - 1 && (s[k - 1] != 99 || k == 1)
        decreases p.rd + if c == 99 then 1 else 0
      {
        c := p.SbackC();
        if c == 99 && p.rd > 0 {
          FoldStep(s, k);
          k := k - 1;
        }
      }
      p.SkipC();
      p.SalterC(-1);
      p.Truncate();
      assert p.Digits() == Folded(s, k);
      FoldedCanonical(s, k);
    }
  }

  /** The columns summed so far, with the carry out of them. */
  ghost predicate Summed(a: seq<int>, b: seq<int>, p: seq<int>, carry: int)
  {
    && IsDigits(p) && -1 <= carry <= 1 && (p == [] ==> carry == 0)
    && Val(p) + carry * Pow(|p|) == Val(Low(a, |p|)) + Val(Low(b, |p|))
  }

  /** One column of the addition loop. */
  lemma AddStep(a: seq<int>, b: seq<int>, p: seq<int>, c0: int, n: int, c1: int)
    requires Summed(a, b, p, c0)
    requires At(a, |p|) + At(b, |p|) + c0 == n + 100 * c1
    requires 0 <= n <= 99 && -1 <= c1 <= 1
    ensures Summed(a, b, p + [n], c1)
  {
    var i := |p|;
    LowStep(a, i);
    LowStep(b, i);
    ValSnoc(p, n);
    ColumnMul(At(a, i), At(b, i), c0, n, c1, Pow(i));
  }

  lemma LowAll(a: seq<int>, n: nat)
    requires n >= |a|
    ensures Low(a, n) == a
  {
  }

  lemma AddDone(a: seq<int>, b: seq<int>, p: seq<int>, carry: int)
    requires Summed(a, b, p, carry) && |p| >= |a| && |p| >= |b|
    ensures carry == 0 ==> Val(p) == Val(a) + Val(b) && IsNum(p)
    ensures carry != 0 ==> Val(p + [carry]) == Val(a) + Val(b) && |p| > 0 && IsNum(p + [carry])
  {
    LowAll(a, |p|);
    LowAll(b, |p|);
    if carry != 0 {
      ValSnoc(p, carry);
    }
  }

  lemma ColumnMul(x: int, y: int, c0: int, n: int, c1: int, w: int)
    requires x + y + c0 == n + 100 * c1
    ensures x * w + y * w + c0 * w == n * w + c1 * (100 * w)
  {
    assert (x + y + c0) * w == (n + 100 * c1) * w;
  }

  /** `sfeof(b)?0:sgetc(b)` */
  method NextOrZero(b: Blk) returns (n: int)
    requires b.Valid() && b.rd <= b.wt
    modifies b`rd
    ensures b.Valid() && n == At(b.Digits(), old(b.rd))
    ensures b.rd == if old(b.rd) < b.wt then old(b.rd) + 1 else b.wt
  {
    n := 0;
    if !b.SfEof() {
      n := b.SgetC();
    }
  }

  /** The body of the column loop: one digit of the sum and the carry into the next. */
  method AddColumn(a1: Blk, a2: Blk, carry: int) returns (n: int, carry': int)
    requires a1.Valid() && a2.Valid() && a1 != a2 && a1.rd <= a1.wt && a2.rd <= a2.wt
    requires -1 <= carry <= 1
    requires -1 <= At(a1.Digits(), a1.rd) <= 99 && -1 <= At(a2.Digits(), a2.rd) <= 99
    modifies a1`rd, a2`rd
    ensures a1.Valid() && a1.rd == if old(a1.rd) < a1.wt then old(a1.rd) + 1 else a1.wt
    ensures a2.Valid() && a2.rd == if old(a2.rd) < a2.wt then old(a2.rd) + 1 else a2.wt
    ensures At(a1.Digits(), old(a1.rd)) + At(a2.Digits(), old(a2.rd)) + carry == n + 100 * carry'
    ensures 0 <= n <= 99 && -1 <= carry' <= 1
  {
    var n1 := NextOrZero(a1);
    var n2 := NextOrZero(a2);
    n := n1 + n2 + carry;
    if n >= 100 {
      carry' := 1;
      n := n - 100;
    } else if n < 0 {
      carry' := -1;
      n := n + 100;
    } else {
      carry' := 0;
    }
  }

  /** The column loop of `add`, up to the final carry. */
  method AddColumns(a1: Blk, a2: Blk) returns (p: Blk)
    requires a1.Valid() && a2.Valid() && a1 != a2
    requires IsNum(a1.Digits()) && IsNum(a2.Digits())
    modifies a1`rd, a2`rd
    ensures a1.Valid() && a2.Valid()
    ensures fresh(p) && p.Valid() && IsNum(p.Digits())
    ensures Val(p.Digits()) == Val(a1.Digits()) + Val(a2.Digits())
    ensures IsNeg(p.Digits()) ==> p.wt >= 2
  {
    ghost var s, t := a1.Digits(), a2.Digits();
    var size := if a1.wt > a2.wt then a1.wt else a2.wt;
    p := new Blk.Salloc(size);
    a1.Rewind();
    a2.Rewind();
    var carry := 0;
    assert p.Digits() == [] && Low(s, 0) == [] && Low(t, 0) == [];
    var i := 0;
    while i < size
      invariant i <= size && fresh(p) && p.Valid() && a1.Valid() && a2.Valid()
      invariant a1.Digits() == s && a2.Digits() == t
      invariant a1.rd == if i < |s| then i else |s|
      invariant a2.rd == if i < |t| then i else |t|
      invariant p.wt == i && Summed(s, t, p.Digits(), carry)
    {
      ghost var c0, d := carry, p.Digits();
      var n;
      n, carry := AddColumn(a1, a2, carry);
      AddStep(s, t, d, c0, n, carry);
      p.SputC(n);
      i := i + 1;
    }
    AddDone(s, t, p.Digits(), carry);
    if carry != 0 {
      p.SputC(carry);
    }
  }

  /** Exact sum, always in canonical form, whatever the lengths and signs. */
  method Add(a1: Blk, a2: Blk) returns (p: Blk)
    requires a1.Valid() && a2.Valid() && a1 != a2
    requires IsNum(a1.Digits()) && IsNum(a2.Digits())
    modifies a1`rd, a2`rd
    ensures a1.Valid() && a2.Valid()
    ensures fresh(p) && p.Valid() && Canonical(p.Digits())
    ensures Val(p.Digits()) == Val(a1.Digits()) + Val(a2.Digits())
  {
    p := AddColumns(a1, a2);
    Trim(p);
    FoldNines(p);
  }
}
