/**
 The `Blk` buffer of dc and its cursor macros.  `data` is the allocation from
 `beg` to `last`; `rd` and `wt` are the two cursors as offsets from `beg`.
 Cells past `wt` hold whatever the allocator left there, so no contract below
 says anything about them except where the source clears them.
 */
module DcBlk {

  /** A C `char` is signed on Plan 9: storing a value outside this range would wrap. */
  type Char = x: int | -128 <= x < 128 witness 0

  class Blk {
    var data: seq<Char>
    var rd: nat
    var wt: nat

    ghost predicate Valid()
      reads this
    {
      rd <= |data| && wt <= |data|
    }

    /** What the block holds: everything between `beg` and `wt`. */
    function Digits(): (s: seq<int>)
      requires wt <= |data|
      reads this`data, this`wt
      ensures |s| == wt
    {
      data[..wt]
    }

    constructor Salloc(size: nat)
      ensures Valid() && |data| == size && rd == 0 && wt == 0
    {
      data := seq(size, _ => 0);
      rd, wt := 0, 0;
    }

    /** `copy(hptr, length(hptr))` */
    constructor Copy(b: Blk)
      requires b.Valid()
      ensures Valid() && Digits() == b.Digits() && rd == 0 && |data| == wt
    {
      data := b.data[..b.wt];
      rd, wt := 0, b.wt;
    }

    method Rewind()
      modifies this`rd
      ensures rd == 0
    {
      rd := 0;
    }

    /** `create(p)`: forget the contents. */
    method Create()
      modifies this`rd, this`wt
      ensures rd == 0 && wt == 0
    {
      rd, wt := 0, 0;
    }

    /** `fsfile(p)`: move the read cursor to the end. */
    method FsFile()
      modifies this`rd
      ensures rd == wt
    {
      rd := wt;
    }

    method Truncate()
      requires Valid()
      modifies this`wt
      ensures Valid() && wt == rd
    {
      wt := rd;
    }

    predicate SfEof()
      reads this
    {
      rd == wt
    }

    predicate SfBeg()
      reads this
    {
      rd == 0
    }

    method SgetC() returns (c: int)
      requires Valid() && rd <= wt
      modifies this`rd
      ensures Valid()
      ensures old(rd) == wt ==> c == -1 && rd == old(rd)
      ensures old(rd) < wt ==> c == data[old(rd)] && rd == old(rd) + 1
    {
      if rd == wt {
        c := -1;
      } else {
        c := data[rd];
        rd := rd + 1;
      }
    }

    function SlookC(): (c: int)
      requires Valid() && rd <= wt
      reads this
    {
      if rd == wt then -1 else data[rd]
    }

    /** `sfeof(p)?0:slookc(p)` */
    function LookOrZero(): (c: int)
      requires Valid() && rd <= wt
      reads this
    {
      if SfEof() then 0 else SlookC()
    }

    /** `sbackc(p)`: step back and read, or -1 at the beginning. */
    method SbackC() returns (c: int)
      requires Valid()
      modifies this`rd
      ensures Valid()
      ensures old(rd) == 0 ==> c == -1 && rd == 0
      ensures old(rd) > 0 ==> rd == old(rd) - 1 && c == data[rd]
    {
      if rd == 0 {
        c := -1;
      } else {
        rd := rd - 1;
        c := data[rd];
      }
    }

    method BackC()
      requires Valid()
      modifies this`rd
      ensures Valid()
      ensures rd == if old(rd) > 0 then old(rd) - 1 else 0
    {
      if rd > 0 {
        rd := rd - 1;
      }
    }

    method SkipC()
      requires Valid()
      modifies this`rd
      ensures Valid()
      ensures rd == if old(rd) < wt then old(rd) + 1 else old(rd)
    {
      if rd < wt {
        rd := rd + 1;
      }
    }

    /** `more(p)`: double the allocation. */
    method More()
      requires Valid()
      modifies this`data
      ensures Valid() && |data| > |old(data)| && data[..|old(data)|] == old(data)
    {
      var size := if |data| == 0 then 2 else |data| * 2;
      data := data + seq(size - |data|, _ => 0);
    }

    /** `sputc(p,c)`: append. */
    method SputC(c: Char)
      requires Valid()
      modifies this`data, this`wt
      ensures Valid() && Digits() == old(Digits()) + [c]
    {
      if wt == |data| {
        More();
      }
      data := data[wt := c];
      wt := wt + 1;
    }

    /** `salterc(p,c)`: overwrite at the read cursor, extending the contents at the end. */
    method SalterC(c: Char)
      requires Valid() && rd <= wt
      modifies this
      ensures Valid() && rd == old(rd) + 1 && rd <= wt
      ensures wt == if old(rd) < old(wt) then old(wt) else old(wt) + 1
      ensures Digits() == if old(rd) < old(wt) then old(Digits())[old(rd) := c] else old(Digits()) + [c]
    {
      if rd == |data| {
        More();
      }
      data := data[rd := c];
      rd := rd + 1;
      if rd > wt {
        wt := rd;
      }
    }

    /** `seekc(p,n)`: place the cursor, growing the block with unspecified cells. */
    method SeekC(n: nat)
      requires Valid()
      modifies this
      ensures Valid() && rd == n
      ensures wt == if n > old(wt) then n else old(wt)
      ensures |data| >= |old(data)| && data[..|old(data)|] == old(data)
    {
      if n > |data| {
        data := data + seq(n - |data|, _ => 0);
        wt := n;
        rd := n;
        return;
      }
      rd := n;
      if n > wt {
        wt := n;
      }
    }

    /** `zero(p)`: clear the whole allocation. */
    method Zero()
      requires Valid()
      modifies this`data
      ensures Valid() && |data| == |old(data)|
      ensures forall i :: 0 <= i < |data| ==> data[i] == 0
    {
      var i := 0;
      while i < |data|
        invariant i <= |data| == |old(data)|
        invariant forall j :: 0 <= j < i ==> data[j] == 0
      {
        data := data[i := 0];
        i := i + 1;
      }
    }
  }
}
