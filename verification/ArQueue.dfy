/**
 A member queue of `ar`: a linked chain of members in core, the oldest of which may
 have been spilled to a file.
 */
module ArQueue {
  import opened ArFormat

  class Armember {
    var next: Armember?
    const m: Member
    /** The only queue this member can be in. */
    ghost const owner: Arfile

    constructor (m: Member, ghost owner: Arfile)
      ensures this.m == m && this.owner == owner && next == null
    {
      this.m := m;
      this.owner := owner;
      next := null;
    }
  }

  /** The members of a chain. */
  ghost function Of(chain: seq<Armember>): (ms: seq<Member>) {
    if chain == [] then [] else Of(chain[..|chain| - 1]) + [chain[|chain| - 1].m]
  }

  lemma {:induction false} OfSplit(chain: seq<Armember>)
    requires chain != []
    ensures Of(chain) == [chain[0].m] + Of(chain[1..])
  {
    var n := |chain| - 1;
    if n > 0 {
      OfSplit(chain[..n]);
      assert chain[1..][..n - 1] == chain[..n][1..];
    }
  }

  lemma OfSnoc(chain: seq<Armember>, bp: Armember)
    ensures Of(chain + [bp]) == Of(chain) + [bp.m]
  {
    assert (chain + [bp])[..|chain|] == chain;
  }

  /** The head goes from one end of the order's middle to the other: nothing moves. */
  lemma PageOrder(spilled: seq<Member>, chain: seq<Armember>)
    requires chain != []
    ensures (spilled + [chain[0].m]) + Of(chain[1..]) == spilled + Of(chain)
  {
    OfSplit(chain);
  }

  lemma StreamOrder(out: seq<int>, spilled: seq<Member>, ms: seq<Member>)
    ensures out + Images(spilled) + Images(ms) == out + Images(spilled + ms)
  {
    ImagesConcat(spilled, ms);
  }

  class Arfile {
    var paged: bool
    var disk: seq<int>
    var size: int
    var head: Armember?
    var tail: Armember?
    var sym: seq<Ref>
    /** The chain from `head` to `tail`. */
    ghost var chain: seq<Armember>
    /** The members that are in the spill file. */
    ghost var spilled: seq<Member>

    constructor ()
      ensures Valid() && Placed() == [] && chain == [] && size == 0 && sym == []
    {
      paged, disk, size, head, tail, sym := false, [], 0, null, null, [];
      chain, spilled := [], [];
    }

    ghost predicate Linked()
      reads this, chain
    {
      && (chain == [] <==> head == null) && (chain == [] <==> tail == null)
      && (chain != [] ==> head == chain[0] && tail == chain[|chain| - 1] && chain[|chain| - 1].next == null)
      && (forall i, j :: 0 <= i && j == i + 1 < |chain| ==> chain[i].next == chain[j])
      && (forall i, j :: 0 <= i < j < |chain| ==> chain[i] != chain[j])
      && (forall x :: x in chain ==> x.owner == this)
    }

    lemma NextOf(k: nat)
      requires Linked() && k < |chain|
      ensures k + 1 < |chain| ==> chain[k].next == chain[k + 1]
      ensures k + 1 == |chain| ==> chain[k].next == null
    {
    }

    ghost predicate Valid()
      reads this, chain
    {
      Linked() && (!paged ==> disk == []) && disk == Images(spilled)
    }

    /** All members inserted so far, in order. */
    ghost function Placed(): seq<Member>
      reads this
    {
      spilled + Of(chain)
    }

    method Link(bp: Armember)
      requires Linked() && bp !in chain && bp.owner == this
      modifies this`head, this`tail, this`chain, bp, tail
      ensures Linked() && chain == old(chain) + [bp] && bp.next == null
    {
      bp.next := null;
      if tail == null {
        head := bp;
      } else {
        tail.next := bp;
      }
      tail := bp;
      chain := chain + [bp];
    }

    method Unlink()
      requires Linked() && head != null
      modifies this`head, this`tail, this`chain
      ensures Linked() && chain == old(chain)[1..]
    {
      var bp := head;
      NextOf(0);
      head := bp.next;
      if tail == bp {
        tail := bp.next;
      }
      chain := chain[1..];
    }

    /** `arinsert` */
    method Insert(bp: Armember)
      requires Valid() && bp !in chain && bp.owner == this
      modifies this`head, this`tail, this`chain, bp, tail
      ensures Valid() && chain == old(chain) + [bp] && Placed() == old(Placed()) + [bp.m]
      ensures bp.next == null
    {
      OfSnoc(chain, bp);
      Link(bp);
    }

    /** A member is inserted and its bytes are added to the size. */
    method Take(bp: Armember)
      requires Valid() && bp !in chain && bp.owner == this
      modifies this`head, this`tail, this`chain, this`size, bp, tail
      ensures Valid() && chain == old(chain) + [bp] && Placed() == old(Placed()) + [bp.m]
      ensures size == old(size) + |Image(bp.m)|
    {
      Insert(bp);
      size := size + |Image(bp.m)|;
    }

    /** `page`: the head of the chain goes to the end of the spill file, if that can be made. */
    method Page(creatable: bool) returns (ok: bool)
      requires Valid() && head != null
      modifies this`paged, this`disk, this`head, this`tail, this`chain, this`spilled
      ensures Valid() && Placed() == old(Placed()) && ok == (old(paged) || creatable)
      ensures ok ==> chain == old(chain)[1..] && paged
      ensures !ok ==> chain == old(chain) && !paged
    {
      if !paged && !creatable {
        return false;
      }
      PageOrder(spilled, chain);
      paged := true;
      WriteOut(head.m);
      Unlink();
      return true;
    }

    /** `arwrite` to the spill file. */
    method WriteOut(m: Member)
      requires disk == Images(spilled)
      modifies this`disk, this`spilled
      ensures disk == Images(spilled) && spilled == old(spilled) + [m]
    {
      ImagesSnoc(spilled, m);
      disk := disk + Image(m);
      spilled := spilled + [m];
    }

    /** `arstream`: the spill file, then the chain; everything once and in insertion order. */
    method Stream(out: seq<int>) returns (r: seq<int>)
      requires Valid()
      modifies this`paged
      ensures r == out + Images(Placed())
    {
      StreamOrder(out, spilled, Of(chain));
      r := out;
      if paged {
        r := r + disk;
        paged := false;
      }
      assert r == out + Images(spilled);
      r := StreamChain(r);
    }

    /** The in-core members written out. */
    method StreamChain(out: seq<int>) returns (r: seq<int>)
      requires Linked()
      ensures r == out + Images(Of(chain))
    {
      r := out;
      var bp := head;
      ghost var k := 0;
      while bp != null
        invariant 0 <= k <= |chain| && (bp == null <==> k == |chain|)
        invariant k < |chain| ==> bp == chain[k]
        invariant r == out + Images(Of(chain[..k]))
        decreases |chain| - k
      {
        StreamStep(chain, k);
        NextOf(k);
        r := r + Image(bp.m);
        bp := bp.next;
        k := k + 1;
      }
      assert chain[..k] == chain;
    }

    lemma StreamStep(chain: seq<Armember>, k: nat)
      requires k < |chain|
      ensures Images(Of(chain[..k + 1])) == Images(Of(chain[..k])) + Image(chain[k].m)
    {
      assert chain[..k + 1] == chain[..k] + [chain[k]];
      OfSnoc(chain[..k], chain[k]);
      ImagesSnoc(Of(chain[..k]), chain[k].m);
    }
  }
}
