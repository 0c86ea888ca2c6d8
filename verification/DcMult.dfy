/** Schoolbook multiplication on `Blk`s, and the decimal shift `add0` built on it. */
module DcMult {
  import opened DcRadix
  import opened DcBlk
  import opened DcAdd

  /** `salterc` as an operation on digit strings. */
  function Put(s: seq<int>, k: nat, d: int): seq<int>
    requires k <= |s|
  {
    if k < |s| then s[k := d] else s + [d]
  }

  lemma ValPut(s: seq<int>, k: nat, d: int)
    requires k <= |s|
    ensures Val(Put(s, k, d)) == Val(s) + (d - At(s, k)) * Pow(k)
  {
    if k < |s| {
      ValUpdate(s, k, d);
    } else {
      ValSnoc(s, d);
    }
  }

  /**
   Part of a row: the first `i` digits of `p`, times `cq`, have been added to
   `m` from position `j` on, giving `x` and a carry into position `j + i`.
   */
  ghost predicate RowSummed(m: seq<int>, p: seq<int>, cq: int, j: nat, i: nat, x: seq<int>, carry: int)
  {
    && i <= |p| && IsDigits(x) && 0 <= carry <= 99
    && |x| == (if |m| > j + i then |m| else j + i)
    && Val(x) + carry * Pow(j + i) == Val(m) + cq * Val(p[..i]) * Pow(j)
  }

  lemma RowStart(m: seq<int>, p: seq<int>, cq: int, j: nat)
    requires IsDigits(m) && j <= |m|
    ensures RowSummed(m, p, cq, j, 0, m, 0)
  {
    assert p[..0] == [];
  }

  lemma RowMul(cq: int, v: int, cp: int, pi: int, pj: int, w: int)
    requires w == pj * pi
    ensures cq * (v + cp * pi) * pj == cq * v * pj + cp * cq * w
  {
    calc {
      cq * (v + cp * pi) * pj;
      (cq * v + cq * (cp * pi)) * pj;
      cq * v * pj + cq * (cp * pi) * pj;
      { assert cq * (cp * pi) * pj == cp * cq * (pj * pi); }
      cq * v * pj + cp * cq * w;
    }
  }

  lemma RowStep(m: seq<int>, p: seq<int>, cq: int, j: nat, i: nat, x: seq<int>, carry: int, d: int, carry': int)
    requires RowSummed(m, p, cq, j, i, x, carry)
    requires i < |p| && j <= |m|
    requires p[i] * cq + carry + At(x, j + i) == d + 100 * carry'
    requires 0 <= d <= 99 && 0 <= carry' <= 99
    ensures RowSummed(m, p, cq, j, i + 1, Put(x, j + i, d), carry')
  {
    var k := j + i;
    var w := Pow(k);
    ValPut(x, k, d);
    ColumnMul(p[i] * cq, At(x, k), carry, d, carry', w);
    SumMul(d - At(x, k), At(x, k), w);
    PowAdd(j, i);
    ValPrefix(p, i);
    RowMul(cq, Val(p[..i]), p[i], Pow(i), Pow(j), w);
  }

  lemma SumMul(a: int, b: int, w: int)
    ensures (a + b) * w == a * w + b * w
  {
  }

  lemma MulMono2(a: int, x: int, b: int, y: int)
    requires 0 <= a <= x && 0 <= b <= y
    ensures a * b <= x * y
  {
    MulMono(a, x, b);
    MulMono(b, y, x);
  }

  /** The body of the inner loop: one cell of the row. */
  method MultCell(mp: Blk, mr: Blk, cq: int, carry: int) returns (d: int, carry': int)
    requires mp.Valid() && mr.Valid() && mp != mr && mp.rd < mp.wt && mr.rd <= mr.wt
    requires 0 <= mp.Digits()[mp.rd] <= 99 && 0 <= cq <= 99 && 0 <= carry <= 99
    requires 0 <= At(mr.Digits(), mr.rd) <= 99
    modifies mp`rd, mr
    ensures mp.Valid() && mr.Valid() && mp.rd == old(mp.rd) + 1 && mr.rd == old(mr.rd) + 1 <= mr.wt
    ensures mr.Digits() == Put(old(mr.Digits()), old(mr.rd), d)
    ensures mp.Digits()[old(mp.rd)] * cq + carry + At(old(mr.Digits()), old(mr.rd)) == d + 100 * carry'
    ensures 0 <= d <= 99 && 0 <= carry' <= 99
  {
    var cp := mp.SgetC();
    var mcr := mr.LookOrZero();
    var mt := cp * cq + carry + mcr;
    MulMono2(0, cp, 0, cq);
    MulMono2(cp, 99, cq, 99);
    d, carry' := mt % 100, mt / 100;
    mr.SalterC(d);
  }

  /** One row: the inner loop of `mult` and the carry after it. */
  method MultRow(mp: Blk, mr: Blk, cq: int, offset: nat)
    requires mp.Valid() && mr.Valid() && mp != mr && mp.wt > 0
    requires IsDigits(mp.Digits()) && IsDigits(mr.Digits()) && 0 <= cq <= 99
    requires offset <= mr.wt <= offset + mp.wt
    modifies mp`rd, mr
    ensures mp.Valid() && mr.Valid() && IsDigits(mr.Digits())
    ensures Val(mr.Digits()) == old(Val(mr.Digits())) + cq * Val(mp.Digits()) * Pow(offset)
    ensures mr.wt == offset + mp.wt
        || (mr.wt == offset + mp.wt + 1 && mr.Digits()[mr.wt - 1] != 0)
  {
    ghost var m, p := mr.Digits(), mp.Digits();
    mp.Rewind();
    mr.rd := offset;
    var carry := 0;
    RowStart(m, p, cq, offset);
    while !mp.SfEof()
      invariant mp.Valid() && mr.Valid() && mp.rd <= mp.wt && mr.rd == offset + mp.rd <= mr.wt
      invariant RowSummed(m, p, cq, offset, mp.rd, mr.Digits(), carry)
      decreases mp.wt - mp.rd
    {
      ghost var i, x, c0 := mp.rd, mr.Digits(), carry;
      var d;
      d, carry := MultCell(mp, mr, cq, carry);
      RowStep(m, p, cq, offset, i, x, c0, d, carry);
    }
    assert p[..|p|] == p;
    ghost var x := mr.Digits();
    ValSnoc(x, carry);
    if carry != 0 {
      var mcr := mr.LookOrZero();
      mr.SalterC(mcr + carry);
      assert mr.Digits() == x + [carry];
    }
  }

  /** The rows done so far: `p` times the low `j` digits of `q`. */
  ghost predicate Partial(p: seq<int>, q: seq<int>, j: nat, r: seq<int>)
  {
    && j <= |q| && IsDigits(r) && Val(r) == Val(p) * Val(q[..j])
    && (if p == [] || j == 0 then r == []
        else |p| + j - 1 <= |r| <= |p| + j && (|r| == |p| + j ==> r[|r| - 1] != 0))
  }

  lemma PartialStart(p: seq<int>, q: seq<int>)
    ensures Partial(p, q, 0, [])
  {
    assert q[..0] == [];
  }

  lemma PartialStep(p: seq<int>, q: seq<int>, j: nat, x: seq<int>, y: seq<int>)
    requires Partial(p, q, j, x) && j < |q| && p != []
    requires IsDigits(y) && Val(y) == Val(x) + q[j] * Val(p) * Pow(j)
    requires |y| == j + |p| || (|y| == j + |p| + 1 && y[|y| - 1] != 0)
    ensures Partial(p, q, j + 1, y)
  {
    ValPrefix(q, j);
    ProductMul(Val(p), Val(q[..j]), q[j], Pow(j));
  }

  lemma ProductMul(p: int, a: int, c: int, w: int)
    ensures p * (a + c * w) == p * a + c * p * w
  {
    assert p * (c * w) == c * p * w;
  }

  lemma PartialEmpty(q: seq<int>, j: nat)
    requires Partial([], q, j, []) && j < |q|
    ensures Partial([], q, j + 1, [])
  {
  }

  lemma PartialDone(p: seq<int>, q: seq<int>, r: seq<int>)
    requires Partial(p, q, |q|, r) && IsDigits(p) && IsDigits(q)
    ensures Val(r) == Val(p) * Val(q)
    ensures Canonical(p) && Canonical(q) ==> Canonical(r)
  {
    assert q[..|q|] == q;
    if Canonical(p) && Canonical(q) && p != [] && q != [] && |r| == |p| + |q| - 1 {
      ProductTop(p, q, r);
    }
  }

  /** A product that did not gain a digit still has a nonzero top. */
  lemma ProductTop(p: seq<int>, q: seq<int>, r: seq<int>)
    requires Canonical(p) && Canonical(q) && IsDigits(p) && IsDigits(q) && IsDigits(r)
    requires |p| > 0 && |q| > 0 && |r| == |p| + |q| - 1 && Val(r) == Val(p) * Val(q)
    ensures r[|r| - 1] != 0
  {
    ValFloor(p);
    ValFloor(q);
    PowAdd(|p| - 1, |q| - 1);
    MulMono2(Pow(|p| - 1), Val(p), Pow(|q| - 1), Val(q));
    assert Pow(|r| - 1) <= Val(r);
    ZeroTop(r);
  }

  lemma ZeroTop(r: seq<int>)
    requires IsDigits(r) && |r| > 0
    ensures r[|r| - 1] == 0 ==> Val(r) < Pow(|r| - 1)
  {
    ValBounds(r[..|r| - 1]);
    ValTop(r);
  }

  /** The magnitude product: the two nested loops of `mult`. */
  method MultDigits(mp: Blk, mq: Blk) returns (mr: Blk)
    requires mp.Valid() && mq.Valid() && mp != mq
    requires IsDigits(mp.Digits()) && IsDigits(mq.Digits())
    modifies mp`rd, mq`rd
    ensures mp.Valid() && mq.Valid()
    ensures fresh(mr) && mr.Valid() && IsDigits(mr.Digits())
    ensures Val(mr.Digits()) == Val(mp.Digits()) * Val(mq.Digits())
    ensures Canonical(mp.Digits()) && Canonical(mq.Digits()) ==> Canonical(mr.Digits())
  {
    ghost var p, q := mp.Digits(), mq.Digits();
    mr := new Blk.Salloc(mp.wt + mq.wt);
    mr.Zero();
    mq.Rewind();
    var offset := 0;
    PartialStart(p, q);
    assert mr.Digits() == [];
    while !mq.SfEof()
      invariant mp.Valid() && mq.Valid() && mr.Valid() && fresh(mr)
      invariant mq.rd == offset <= mq.wt
      invariant p == [] ==> |mr.data| == mq.wt
      invariant Partial(p, q, offset, mr.Digits())
      decreases mq.wt - mq.rd
    {
      ghost var x := mr.Digits();
      var cq := mq.SgetC();
      assert cq == q[offset];
      if mp.wt > 0 {
        MultRow(mp, mr, cq, offset);
        PartialStep(p, q, offset, x, mr.Digits());
      } else {
        // the inner loop runs zero times; only the cursors move
        mp.Rewind();
        mr.rd := offset;
        PartialEmpty(q, offset);
      }
      offset := offset + 1;
    }
    PartialDone(p, q, mr.Digits());
  }

  function Signed(neg: bool, x: int): int {
    if neg then -x else x
  }

  /** `p` itself, or a negated copy when `p` is below zero. */
  method Magnitude(p: Blk) returns (m: Blk, neg: bool)
    requires p.Valid() && IsNum(p.Digits())
    modifies p`rd
    ensures p.Valid() && m.Valid() && IsDigits(m.Digits())
    ensures neg <==> IsNeg(p.Digits())
    ensures (m == p || fresh(m)) && Val(p.Digits()) == Signed(neg, Val(m.Digits()))
    ensures Canonical(p.Digits()) ==> Canonical(m.Digits())
    ensures !neg ==> m == p
  {
    ValSign(p.Digits());
    p.FsFile();
    m, neg := p, false;
    if !p.SfBeg() {
      var c := p.SbackC();
      if c < 0 {
        m := new Blk.Copy(p);
        ChSign(m);
        neg := true;
      }
    }
  }

  method SetSign(b: Blk, neg: bool)
    requires b.Valid() && IsNum(b.Digits())
    modifies b
    ensures b.Valid() && IsNum(b.Digits()) && Val(b.Digits()) == Signed(neg, old(Val(b.Digits())))
    ensures old(Canonical(b.Digits())) ==> Canonical(b.Digits())
  {
    if neg {
      ChSign(b);
    }
  }

  lemma SignMul(a: int, b: int)
    ensures (-a) * b == -(a * b) && a * (-b) == -(a * b) && (-a) * (-b) == a * b
  {
  }

  lemma SignedProduct(a: int, b: int, m: int, na: bool, nb: bool, a1: int, b1: int, m1: int)
    requires m == a * b
    requires a1 == Signed(na, a) && b1 == Signed(nb, b) && m1 == Signed(na != nb, m)
    ensures m1 == a1 * b1
  {
    SignMul(a, b);
  }

  /** Exact product for all lengths and signs; canonical operands give a canonical product. */
  method Mult(p: Blk, q: Blk) returns (mr: Blk)
    requires p.Valid() && q.Valid() && p != q && IsNum(p.Digits()) && IsNum(q.Digits())
    modifies p`rd, q`rd
    ensures p.Valid() && q.Valid()
    ensures fresh(mr) && mr.Valid() && IsNum(mr.Digits())
    ensures Val(mr.Digits()) == Val(p.Digits()) * Val(q.Digits())
    ensures Canonical(p.Digits()) && Canonical(q.Digits()) ==> Canonical(mr.Digits())
  {
    var mp, sp := Magnitude(p);
    var mq, sq := Magnitude(q);
    mr := MultDigits(mp, mq);
    ghost var a, b, m := Val(mp.Digits()), Val(mq.Digits()), Val(mr.Digits());
    SetSign(mr, sp != sq);
    SignedProduct(a, b, m, sp, sq, Val(p.Digits()), Val(q.Digits()), Val(mr.Digits()));
  }
}
