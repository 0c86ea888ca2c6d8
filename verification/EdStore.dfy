/**
 The temporary file of `ed`: a store of lines addressed by rune offset, kept behind
 an input and an output block buffer (`getblock`, `putline`, `getline`).
 */
module EdStore {

  /** BLKSIZE / sizeof(Rune), with 32-bit runes. */
  const BLOCK_RUNES := 1024
  /** Maximum number of blocks in the temporary file. */
  const NBLK := 8191
  /** Maximum line size, terminator included. */
  const LBSIZE := 4096
  const NEWLINE := 10

  /** `& 077776`: the low bit and everything above fifteen bits go. */
  function Mask(n: nat): nat {
    n % 0x8000 / 2 * 2
  }

  /** Lines start at even addresses and leave at least one rune between them. */
  lemma MaskRounds(len: nat)
    requires 1 <= len <= LBSIZE
    ensures Mask(len + 3) % 2 == 0 && len + 2 <= Mask(len + 3) <= len + 3
  {
  }

  /** The text that `putline` stores: up to a newline if there is one. */
  function FirstLine(text: seq<int>): (t: seq<int>)
    ensures t <= text && NEWLINE !in t
    ensures |t| < |text| ==> text[|t|] == NEWLINE
  {
    if text == [] || text[0] == NEWLINE then [] else [text[0]] + FirstLine(text[1..])
  }

  // ---- the flat view ----

  /** A flat rune array, as whole blocks by number. */
  type Image = map<int, seq<int>>

  ghost predicate ImageOk(m: Image) {
    forall b :: b in m ==> 0 <= b < NBLK && |m[b]| == BLOCK_RUNES
  }

  predicate Has(m: Image, p: nat) {
    p / BLOCK_RUNES in m
  }

  ghost function Peek(m: Image, p: nat): int
    requires ImageOk(m) && Has(m, p)
  {
    m[p / BLOCK_RUNES][p % BLOCK_RUNES]
  }

  ghost function Poke(m: Image, p: nat, c: int): Image
    requires ImageOk(m) && Has(m, p)
  {
    m[p / BLOCK_RUNES := m[p / BLOCK_RUNES][p % BLOCK_RUNES := c]]
  }

  /** The text `t` and its terminator are at address `a`. */
  ghost predicate Holds(m: Image, a: nat, t: seq<int>) {
    ImageOk(m) &&
    forall p: nat {:trigger Has(m, p)} :: a <= p <= a + |t| ==>
      Has(m, p) && Peek(m, p) == if p < a + |t| then t[p - a] else 0
  }

  /** Everything below `limit` that was there is there still, unchanged. */
  ghost predicate Kept(m: Image, m': Image, limit: nat) {
    ImageOk(m) && ImageOk(m') &&
    forall p: nat {:trigger Has(m, p)} {:trigger Has(m', p)} :: p < limit && Has(m, p) ==>
      Has(m', p) && Peek(m', p) == Peek(m, p)
  }

  lemma HoldsKept(m: Image, m': Image, limit: nat, a: nat, t: seq<int>)
    requires Holds(m, a, t) && Kept(m, m', limit) && a + |t| < limit
    ensures Holds(m', a, t)
  {
  }

  /** One rune into the line: what is written grows by one and nothing below it moves. */
  lemma PokeStep(m: Image, start: nat, t: seq<int>, c: int)
    requires ImageOk(m) && Has(m, start + |t|) && Written(m, start, t)
    ensures Written(Poke(m, start + |t|, c), start, t + [c])
    ensures Kept(m, Poke(m, start + |t|, c), start + |t|)
  {
    var q := start + |t|;
    var m' := Poke(m, q, c);
    forall p: nat | start <= p < start + |t + [c]|
      ensures Has(m', p) && Peek(m', p) == (t + [c])[p - start]
    {
      assert p != q ==> Has(m, p);
      PeekPoke(m, q, c, p);
    }
    forall p: nat | p < q && Has(m, p) ensures Has(m', p) && Peek(m', p) == Peek(m, p) {
      PeekPoke(m, q, c, p);
    }
  }

  lemma PeekPoke(m: Image, q: nat, c: int, p: nat)
    requires ImageOk(m) && Has(m, q) && Has(m, p)
    ensures ImageOk(Poke(m, q, c)) && Has(Poke(m, q, c), p)
    ensures Peek(Poke(m, q, c), p) == if p == q then c else Peek(m, p)
  {
    assert p == q <==> p / BLOCK_RUNES == q / BLOCK_RUNES && p % BLOCK_RUNES == q % BLOCK_RUNES;
  }

  /** The runes of `t` are at `start`, with no terminator asked for. */
  ghost predicate Written(m: Image, start: nat, t: seq<int>) {
    ImageOk(m) &&
    forall p: nat {:trigger Has(m, p)} :: start <= p < start + |t| ==> Has(m, p) && Peek(m, p) == t[p - start]
  }

  lemma HoldsWritten(m: Image, a: nat, t: seq<int>)
    requires Written(m, a, t + [0])
    ensures Holds(m, a, t)
  {
  }

  /** The runes from `a` on are those of `t`, none of them zero. */
  ghost predicate Runes(m: Image, a: nat, t: seq<int>) {
    Written(m, a, t) && 0 !in t
  }

  lemma RunesMore(m: Image, a: nat, t: seq<int>, c: int)
    requires Runes(m, a, t) && c != 0 && Has(m, a + |t|) && Peek(m, a + |t|) == c
    ensures Runes(m, a, t + [c])
  {
  }

  lemma RunesEnd(m: Image, a: nat, t: seq<int>)
    requires Runes(m, a, t) && Has(m, a + |t|) && Peek(m, a + |t|) == 0
    ensures Holds(m, a, t)
  {
  }

  lemma KeptTrans(m: Image, m1: Image, m2: Image, limit: nat)
    requires Kept(m, m1, limit) && Kept(m1, m2, limit)
    ensures Kept(m, m2, limit)
  {
  }

  /** Renumbering the output buffer changes one block only. */
  lemma OpenBlock(m: Image, b: nat, stale: seq<int>, start: nat, t: seq<int>, limit: nat)
    requires ImageOk(m) && b < NBLK && |stale| == BLOCK_RUNES && Written(m, start, t)
    requires t == [] || start + |t| <= b * BLOCK_RUNES
    requires b !in m || limit <= b * BLOCK_RUNES
    ensures Written(m[b := stale], start, t) && Kept(m, m[b := stale], limit)
  {
    var m' := m[b := stale];
    forall p: nat | start <= p < start + |t|
      ensures Has(m', p) && Peek(m', p) == t[p - start]
    {
      assert Has(m, p);
    }
  }

  /** Block `b` shows `stale` from its start up to `limit`. */
  ghost predicate Shows(m: Image, b: nat, stale: seq<int>, limit: nat) {
    ImageOk(m) && |stale| == BLOCK_RUNES &&
    forall p: nat {:trigger Has(m, p)} :: b * BLOCK_RUNES <= p < limit && p / BLOCK_RUNES == b ==>
      Has(m, p) && Peek(m, p) == stale[p % BLOCK_RUNES]
  }

  lemma ShowsKept(m: Image, m': Image, b: nat, stale: seq<int>, limit: nat)
    requires Shows(m, b, stale, limit) && Kept(m, m', limit)
    ensures Shows(m', b, stale, limit)
  {
    forall p: nat | b * BLOCK_RUNES <= p < limit && p / BLOCK_RUNES == b
      ensures Has(m', p) && Peek(m', p) == stale[p % BLOCK_RUNES]
    {
      assert Has(m, p);
    }
  }

  /**
   What there was when a line was begun at `addr`: the image, whether output moves to
   another block (`opens`), whether all that was below `addr` is kept, and output.
   */
  datatype Begun = Begun(m0: Image, addr: nat, keep: bool, opens: bool, stale: seq<int>, ob: int) {
    function Block(): nat {
      addr / BLOCK_RUNES
    }
  }

  /**
   `t` is down so far. Blocks below that of `addr` are kept; so is the rest of what was
   below `addr` (`keep`), or its block shows the old output buffer (`opens`).
   */
  ghost predicate Progress(x: Begun, m: Image, t: seq<int>) {
    && Written(m, x.addr, t)
    && Kept(x.m0, m, x.Block() * BLOCK_RUNES)
    && (x.keep ==> Kept(x.m0, m, x.addr))
    && (x.opens ==> Shows(m, x.Block(), x.stale, x.addr))
  }

  lemma ProgressStart(x: Begun)
    requires ImageOk(x.m0) && |x.stale| == BLOCK_RUNES && x.Block() < NBLK
    requires x.keep && x.opens ==> x.Block() !in x.m0
    ensures Progress(x, if x.opens then x.m0[x.Block() := x.stale] else x.m0, [])
  {
    if x.opens {
      OpenBlock(x.m0, x.Block(), x.stale, x.addr, [], x.Block() * BLOCK_RUNES);
      OpenBlock(x.m0, x.Block(), x.stale, x.addr, [], if x.keep then x.addr else 0);
    }
  }

  lemma ProgressPoke(x: Begun, m: Image, t: seq<int>, c: int)
    requires Progress(x, m, t) && Has(m, x.addr + |t|)
    ensures Progress(x, Poke(m, x.addr + |t|, c), t + [c])
  {
    PokeStep(m, x.addr, t, c);
    var m' := Poke(m, x.addr + |t|, c);
    ProgressKept(x, m, m', t);
  }

  lemma ProgressKept(x: Begun, m: Image, m': Image, t: seq<int>)
    requires Progress(x, m, t) && Kept(m, m', x.addr)
    ensures Kept(x.m0, m', x.Block() * BLOCK_RUNES) && (x.keep ==> Kept(x.m0, m', x.addr))
    ensures x.opens ==> Shows(m', x.Block(), x.stale, x.addr)
  {
    assert x.Block() * BLOCK_RUNES <= x.addr;
    KeptTrans(x.m0, m, m', x.Block() * BLOCK_RUNES);
    if x.keep { KeptTrans(x.m0, m, m', x.addr); }
    if x.opens { ShowsKept(m, m', x.Block(), x.stale, x.addr); }
  }

  lemma ProgressOpen(x: Begun, m: Image, t: seq<int>, b: nat, fill: seq<int>)
    requires Progress(x, m, t) && |fill| == BLOCK_RUNES && b < NBLK
    requires x.addr + |t| == b * BLOCK_RUNES
    ensures Progress(x, m[b := fill], t)
  {
    OpenBlock(m, b, fill, x.addr, t, x.addr);
    ProgressKept(x, m, m[b := fill], t);
  }

  class Store {
    const ibuff: array<int>
    const obuff: array<int>
    var disk: Image
    var iblock: int
    var oblock: int
    var ichanged: bool
    var tline: nat

    constructor ()
      ensures Shape() && oblock == -1 && iblock == -1 && tline == 2 && fresh(ibuff) && fresh(obuff)
      ensures Flat() == map[]
    {
      ibuff := new int[BLOCK_RUNES];
      obuff := new int[BLOCK_RUNES];
      disk, iblock, oblock, ichanged, tline := map[], -1, -1, false, 2;
    }

    /** The buffers are what the block numbers say, and a clean input buffer agrees with the file. */
    ghost predicate Shape()
      reads this, ibuff, obuff
    {
      && ibuff != obuff && ibuff.Length == BLOCK_RUNES && obuff.Length == BLOCK_RUNES
      && ImageOk(disk)
      && -1 <= iblock < NBLK && -1 <= oblock < NBLK && (iblock == oblock ==> iblock == -1)
      && (iblock >= 0 ==> iblock in disk)
      && (iblock >= 0 && !ichanged ==> disk[iblock] == ibuff[..])
      && (ichanged ==> iblock >= 0)
    }

    /** What each block holds, wherever it currently lives: a dirty buffer hides the file. */
    ghost function Flat(): (m: Image)
      requires Shape()
      reads this, ibuff, obuff
      ensures ImageOk(m)
    {
      var m := if oblock >= 0 then disk[oblock := obuff[..]] else disk;
      if iblock >= 0 then m[iblock := ibuff[..]] else m
    }

    /**
     `getblock`: makes the block of address `atl` addressable and returns which buffer
     it is in.  Reading changes nothing in the flat view.  Opening a new output block
     keeps every other block, and shows the previous output buffer under the new number.
     */
    method GetBlock(atl: nat, write: bool) returns (ok: bool, inIbuff: bool)
      requires Shape()
      modifies this, ibuff
      ensures Shape() && tline == old(tline)
      ensures ok ==> (if inIbuff then iblock else oblock) == atl / BLOCK_RUNES
      ensures write ==> ok == (atl / BLOCK_RUNES < NBLK)
      ensures !write ==> ok == (atl / BLOCK_RUNES < NBLK && Has(old(Flat()), atl))
      ensures Flat() == if write && ok && old(iblock) != atl / BLOCK_RUNES && old(oblock) != atl / BLOCK_RUNES
                        then old(Flat())[atl / BLOCK_RUNES := old(obuff[..])] else old(Flat())
      ensures write || !ok ==> iblock == old(iblock)
      ensures !write ==> iblock == old(iblock) || iblock == atl / BLOCK_RUNES
      ensures oblock == if write && ok && old(iblock) != atl / BLOCK_RUNES then atl / BLOCK_RUNES else old(oblock)
      ensures write && ok && inIbuff ==> ichanged
      ensures inIbuff && ok && write ==> old(iblock) == atl / BLOCK_RUNES
    {
      var bno := atl / BLOCK_RUNES;
      inIbuff := false;
      if bno >= NBLK {
        ok := false;
        return;
      }
      ok := true;
      if bno == iblock {
        ichanged := ichanged || write;
        inIbuff := true;
      } else if bno == oblock {
      } else if !write {
        ok := LoadInput(bno);
        inIbuff := ok;
      } else {
        SwitchOutput(bno);
      }
    }

    /** Write the input buffer back if it was changed, then read block `bno` into it. */
    method LoadInput(bno: nat) returns (ok: bool)
      requires Shape() && bno < NBLK && bno != iblock && bno != oblock
      modifies this, ibuff
      ensures Shape() && Flat() == old(Flat()) && tline == old(tline) && oblock == old(oblock)
      ensures ok <==> bno in old(Flat())
      ensures ok ==> iblock == bno
      ensures !ok ==> iblock == old(iblock)
    {
      if ichanged {
        disk := disk[iblock := ibuff[..]];
        ichanged := false;
      }
      ghost var ob := obuff[..];
      ghost var base := if oblock >= 0 then disk[oblock := obuff[..]] else disk;
      assert iblock >= 0 ==> base[iblock] == ibuff[..];
      assert Flat() == base && Flat() == old(Flat());
      ok := bno in disk;
      if ok {
        iblock := bno;
        forall i | 0 <= i < BLOCK_RUNES {
          ibuff[i] := disk[bno][i];
        }
        assert ibuff[..] == disk[bno];
        assert obuff[..] == ob && base[bno] == ibuff[..];
        assert Flat() == base;
      }
    }

    /** Write the output buffer out and give it a new block number. */
    method SwitchOutput(bno: nat)
      requires Shape() && bno < NBLK && bno != iblock && bno != oblock
      modifies this`disk, this`oblock
      ensures Shape() && oblock == bno && Flat() == old(Flat())[bno := obuff[..]]
    {
      if oblock >= 0 {
        disk := disk[oblock := obuff[..]];
      }
      oblock := bno;
    }

    /** `*bp = c` in whichever buffer `getblock` returned. */
    method PutRune(inIbuff: bool, p: nat, c: int)
      requires Shape() && (if inIbuff then iblock else oblock) == p / BLOCK_RUNES
      requires inIbuff ==> ichanged
      modifies ibuff, obuff
      ensures Shape() && Has(old(Flat()), p) && Flat() == Poke(old(Flat()), p, c)
      ensures inIbuff ==> obuff[..] == old(obuff[..])
    {
      var off := p % BLOCK_RUNES;
      ghost var m := Flat();
      if inIbuff {
        ibuff[off] := c;
        assert ibuff[..] == old(ibuff[..])[off := c];
      } else {
        obuff[off] := c;
        assert obuff[..] == old(obuff[..])[off := c];
      }
      assert Flat() == Poke(m, p, c);
    }

    /** The block of the next line is in neither buffer. */
    ghost predicate Elsewhere()
      reads this
    {
      iblock != tline / BLOCK_RUNES && oblock != tline / BLOCK_RUNES
    }

    /** The current place: a buffer that holds the block of `p`, marked changed if it is the input buffer. */
    ghost predicate Pointing(inIbuff: bool, p: nat)
      reads this, ibuff, obuff
    {
      Shape() && (if inIbuff then iblock else oblock) == p / BLOCK_RUNES && (inIbuff ==> ichanged)
    }

    /** A line that stays in the input buffer leaves the output buffer alone. */
    ghost predicate Still(x: Begun, p: nat)
      reads this, obuff
    {
      iblock == x.Block() == p / BLOCK_RUNES ==> oblock == x.ob && obuff[..] == x.stale
    }

    /** The line begun as `x` is down as far as `t`, and the current place follows it. */
    ghost predicate Midway(x: Begun, t: seq<int>, inIbuff: bool)
      reads this, ibuff, obuff
    {
      tline == x.addr && Pointing(inIbuff, x.addr + |t|) && Progress(x, Flat(), t) && Still(x, x.addr + |t|)
    }

    /** The line ran past the last block, through whichever buffer holds that. */
    ghost predicate Overran(x: Begun, t: seq<int>)
      reads this, ibuff, obuff
    {
      && tline == x.addr && Shape() && Progress(x, Flat(), t) && x.addr + |t| == NBLK * BLOCK_RUNES
      && (iblock == NBLK - 1 || oblock == NBLK - 1)
    }

    /** One rune of the line, or its terminator: the end of the text, or a newline overwritten. */
    method PutOne(inIbuff: bool, p: nat, c: int, ghost x: Begun, ghost t: seq<int>)
      requires p == x.addr + |t| && Midway(x, t, inIbuff)
      modifies ibuff, obuff
      ensures Shape() && Progress(x, Flat(), t + [c]) && Still(x, p)
    {
      ghost var m1 := Flat();
      PutRune(inIbuff, p, c);
      ProgressPoke(x, m1, t, c);
    }

    /** Moving on to the next block, at whose start `p` is. */
    method NextBlock(p: nat, ghost x: Begun, ghost t: seq<int>) returns (ok: bool, inIbuff: bool)
      requires p == x.addr + |t| && p % BLOCK_RUNES == 0 && 0 < p <= NBLK * BLOCK_RUNES && t != []
      requires tline == x.addr && Shape() && Progress(x, Flat(), t)
      requires iblock == p / BLOCK_RUNES - 1 || oblock == p / BLOCK_RUNES - 1
      modifies this, ibuff
      ensures iblock == old(iblock) && (ok <==> p / BLOCK_RUNES < NBLK)
      ensures if ok then Midway(x, t, inIbuff) else Overran(x, t)
    {
      ghost var m2, fill := Flat(), obuff[..];
      ok, inIbuff := GetBlock(p, true);
      if Flat() != m2 {
        ProgressOpen(x, m2, t, p / BLOCK_RUNES, fill);
      }
    }

    /** The body of the copying loop: one rune, and the next block when this one is full. */
    method PutStep(inIbuff: bool, nl: nat, p: nat, c: int, ghost x: Begun, ghost t: seq<int>)
        returns (ok: bool, inIbuff': bool, nl': nat)
      requires p == x.addr + |t| && nl == BLOCK_RUNES - p % BLOCK_RUNES && Midway(x, t, inIbuff)
      modifies this, ibuff, obuff
      ensures iblock == old(iblock) && (ok <==> (p + 1) / BLOCK_RUNES < NBLK)
      ensures if ok then Midway(x, t + [c], inIbuff') else Overran(x, t + [c])
      ensures ok ==> nl' == BLOCK_RUNES - (p + 1) % BLOCK_RUNES
    {
      PutOne(inIbuff, p, c, x, t);
      ok, inIbuff', nl' := true, inIbuff, nl - 1;
      if nl' == 0 {
        ok, inIbuff' := NextBlock(p + 1, x, t + [c]);
        nl' := BLOCK_RUNES;
      }
    }

    /** The copying loop of `putline`, up to the terminator. */
    method CopyRunes(text: seq<int>, inIbuff0: bool, ghost line: seq<int>, ghost x: Begun)
        returns (ok: bool, i: nat, inIbuff: bool)
      requires line <= text && NEWLINE !in line && (|line| < |text| ==> text[|line|] == NEWLINE)
      requires Midway(x, [], inIbuff0)
      modifies this, ibuff, obuff
      ensures iblock == old(iblock) && i <= |line|
      ensures if ok then i == |line| && Midway(x, line, inIbuff) else Overran(x, line[..i])
    {
      assert line[..0] == [];
      ok, i, inIbuff := true, 0, inIbuff0;
      var nl := BLOCK_RUNES - tline % BLOCK_RUNES;
      while i < |text| && text[i] != NEWLINE
        invariant 0 <= i <= |line| && nl == BLOCK_RUNES - (x.addr + i) % BLOCK_RUNES
        invariant iblock == old(iblock) && Midway(x, line[..i], inIbuff) && ok
        decreases |text| - i
      {
        ok, inIbuff, nl := PutStep(inIbuff, nl, tline + i, text[i], x, line[..i]);
        assert line[..i] + [text[i]] == line[..i + 1];
        i := i + 1;
        if !ok {
          return;
        }
      }
      assert line[..i] == line;
    }

    /** What a line leaves behind: it is there, or it ran over the last block. */
    ghost predicate Ended(x: Begun, line: seq<int>, ok: bool)
      reads this, ibuff, obuff
    {
      && tline == x.addr && Shape()
      && (ok ==> Progress(x, Flat(), line + [0]) && Still(x, x.addr + |line|))
      && (ok ==> iblock == (x.addr + |line|) / BLOCK_RUNES || oblock == (x.addr + |line|) / BLOCK_RUNES)
      && (!ok ==> Progress(x, Flat(), []))
      && (!ok && iblock != NBLK - 1 ==> oblock == NBLK - 1 && (x.Block() < NBLK - 1 ==> Brimful()))
    }

    /** The copying loop and the terminator. */
    method CopyLine(text: seq<int>, inIbuff0: bool, ghost x: Begun) returns (ok: bool, next: nat)
      requires Midway(x, [], inIbuff0) && 0 !in text
      modifies this, ibuff, obuff
      ensures iblock == old(iblock) && Ended(x, FirstLine(text), ok)
      ensures ok <==> (x.addr + |FirstLine(text)|) / BLOCK_RUNES < NBLK
      ensures ok ==> next == |FirstLine(text)| + 1
    {
      var i, inIbuff;
      ok, i, inIbuff := CopyRunes(text, inIbuff0, FirstLine(text), x);
      next := i + 1;
      if ok {
        PutOne(inIbuff, tline + i, 0, x, FirstLine(text));
      } else {
        OverranBrimful(x, FirstLine(text)[..i]);
      }
    }

    /** The output buffer is full of runes: no line ends in it. */
    ghost predicate Brimful()
      reads obuff
    {
      forall i :: 0 <= i < obuff.Length ==> obuff[i] != 0
    }

    /** A line that ran over the last block from an earlier one leaves that block in output, brimful. */
    lemma OverranBrimful(x: Begun, t: seq<int>)
      requires Overran(x, t) && 0 !in t
      ensures Progress(x, Flat(), [])
      ensures iblock != NBLK - 1 && x.Block() < NBLK - 1 ==> oblock == NBLK - 1 && Brimful()
    {
      forall i | 0 <= i < obuff.Length && iblock != NBLK - 1 && x.Block() < NBLK - 1
        ensures obuff[i] != 0
      {
        var p := (NBLK - 1) * BLOCK_RUNES + i;
        assert Has(Flat(), p) && Peek(Flat(), p) == obuff[..][i];
        assert Peek(Flat(), p) == t[p - x.addr];
      }
    }

    /**
     `putline`: stores the first line of `text` at the next address, which is even.
     It fails exactly when the line would reach past the last block. What was stored in
     other blocks is always kept. What was stored in the block of the next line is kept
     if that block is in a buffer or was never written; else the block shows the old
     output buffer up to the next line.
     */
    method PutLine(text: seq<int>) returns (ok: bool, addr: nat, next: nat)
      requires Shape() && 0 !in text && |text| < LBSIZE
      modifies this, ibuff, obuff
      ensures Shape() && addr == old(tline) && iblock == old(iblock)
      ensures ok <==> (addr + |FirstLine(text)|) / BLOCK_RUNES < NBLK
      ensures ok ==> Holds(Flat(), addr, FirstLine(text)) && tline == addr + Mask(|FirstLine(text)| + 4)
      ensures ok ==> next == |FirstLine(text)| + 1
      ensures !ok ==> tline == addr
      ensures Kept(old(Flat()), Flat(), addr / BLOCK_RUNES * BLOCK_RUNES)
      ensures !old(Elsewhere()) || addr / BLOCK_RUNES !in old(Flat()) ==> Kept(old(Flat()), Flat(), addr)
      ensures old(Elsewhere()) && addr / BLOCK_RUNES < NBLK ==>
                Shows(Flat(), addr / BLOCK_RUNES, old(obuff[..]), addr)
      // where output is afterwards
      ensures ok && iblock != (addr + |FirstLine(text)|) / BLOCK_RUNES ==>
              oblock == (addr + |FirstLine(text)|) / BLOCK_RUNES
      ensures ok && iblock == addr / BLOCK_RUNES == (addr + |FirstLine(text)|) / BLOCK_RUNES ==>
                oblock == old(oblock) && obuff[..] == old(obuff[..])
      ensures !ok && addr / BLOCK_RUNES < NBLK - 1 && iblock != NBLK - 1 ==> oblock == NBLK - 1 && Brimful()
      ensures !ok && addr / BLOCK_RUNES == NBLK - 1 && iblock != NBLK - 1 ==> oblock == NBLK - 1
      ensures addr / BLOCK_RUNES >= NBLK ==>
              Flat() == old(Flat()) && oblock == old(oblock) && obuff[..] == old(obuff[..])
    {
      ghost var els := Elsewhere();
      ghost var keep := !els || tline / BLOCK_RUNES !in Flat();
      ghost var x := Begun(Flat(), tline, keep, els, obuff[..], oblock);
      addr := tline;
      next := 0;
      var inIbuff;
      ok, inIbuff := GetBlock(tline, true);
      if ok {
        ProgressStart(x);
        ok, next := CopyLine(text, inIbuff, x);
        if ok {
          HoldsWritten(Flat(), addr, FirstLine(text));
          MaskRounds(next);
          tline := tline + Mask(next + 3);
        }
      }
    }

    /**
     `getline`: reads from an address, across as many blocks as it takes, up to the first
     zero; it fails if there is no block before that. The flat view stays as it was.
     */
    method GetLine(tl: nat) returns (ok: bool, linebuf: seq<int>)
      requires Shape()
      modifies this, ibuff
      ensures Shape() && Flat() == old(Flat()) && tline == old(tline) && oblock == old(oblock)
      ensures Runes(Flat(), tl, linebuf)
      ensures if ok then Holds(Flat(), tl, linebuf) else !Has(Flat(), tl + |linebuf|)
      ensures ok && oblock != (tl + |linebuf|) / BLOCK_RUNES ==> iblock == (tl + |linebuf|) / BLOCK_RUNES
      ensures iblock == old(iblock) || tl / BLOCK_RUNES <= iblock <= (tl + |linebuf|) / BLOCK_RUNES
    {
      linebuf := [];
      var inIbuff;
      ok, inIbuff := GetBlock(tl, false);
      if ok {
        var c := PeekRune(inIbuff, tl, Flat());
        ok, linebuf := GetRest(tl, inIbuff, c, Flat());
      }
    }

    /** The copying loop of `getline`. */
    method GetRest(tl: nat, inIbuff0: bool, c0: int, ghost m: Image) returns (ok: bool, linebuf: seq<int>)
      requires Halfway(m, tl, [], inIbuff0, c0)
      modifies this, ibuff
      ensures Shape() && Flat() == m && tline == old(tline) && oblock == old(oblock)
      ensures Runes(m, tl, linebuf) && if ok then Holds(m, tl, linebuf) else !Has(m, tl + |linebuf|)
      ensures ok ==> iblock == (tl + |linebuf|) / BLOCK_RUNES || oblock == (tl + |linebuf|) / BLOCK_RUNES
      ensures Read(old(iblock), tl, linebuf)
    {
      ok, linebuf := true, [];
      var inIbuff, nl, c := inIbuff0, BLOCK_RUNES - tl % BLOCK_RUNES, c0;
      while c != 0
        invariant ok && tline == old(tline) && oblock == old(oblock) && Read(old(iblock), tl, linebuf)
        invariant Halfway(m, tl, linebuf, inIbuff, c) && nl == BLOCK_RUNES - (tl + |linebuf|) % BLOCK_RUNES
        decreases NBLK * BLOCK_RUNES - (tl + |linebuf|)
      {
        var text := linebuf + [c];
        ok, inIbuff, nl, c := GetStep(inIbuff, nl, tl + |text|, m, tl, linebuf, c);
        linebuf := text;
        if !ok {
          return;
        }
      }
      RunesEnd(m, tl, linebuf);
    }

    /** Reading a line loads no other blocks than those it lies in. */
    ghost predicate Read(was: int, a: nat, line: seq<int>)
      reads this
    {
      iblock == was || a / BLOCK_RUNES <= iblock <= (a + |line|) / BLOCK_RUNES
    }

    /** `line` has been read from `a`, and `c` is what follows, in the block at hand. */
    ghost predicate Halfway(m: Image, a: nat, line: seq<int>, inIbuff: bool, c: int)
      reads this, ibuff, obuff
    {
      && Shape() && Flat() == m && Runes(m, a, line)
      && (if inIbuff then iblock else oblock) == (a + |line|) / BLOCK_RUNES
      && Has(m, a + |line|) && c == Peek(m, a + |line|)
    }

    /** Moving on to the next rune at `p`, and to the next block when this one is used up. */
    method GetStep(inIbuff: bool, nl: nat, p: nat, ghost m: Image, ghost a: nat, ghost line: seq<int>, ghost c0: int)
        returns (ok: bool, inIbuff': bool, nl': nat, c: int)
      requires p == a + |line| + 1 && Halfway(m, a, line, inIbuff, c0) && c0 != 0
      requires nl == BLOCK_RUNES - (p - 1) % BLOCK_RUNES
      modifies this, ibuff
      ensures Shape() && Flat() == m && tline == old(tline) && oblock == old(oblock)
      ensures Runes(m, a, line + [c0]) && (ok <==> Has(m, p))
      ensures iblock == old(iblock) || (ok && iblock == p / BLOCK_RUNES)
      ensures ok ==> Halfway(m, a, line + [c0], inIbuff', c) && nl' == BLOCK_RUNES - p % BLOCK_RUNES
    {
      RunesMore(m, a, line, c0);
      ok, inIbuff', nl', c := true, inIbuff, nl - 1, 0;
      if nl' == 0 {
        ok, inIbuff' := GetBlock(p, false);
        nl' := BLOCK_RUNES;
      }
      if ok {
        c := PeekRune(inIbuff', p, m);
      }
    }

    /** `*bp` in whichever buffer `getblock` returned. */
    method PeekRune(inIbuff: bool, p: nat, ghost m: Image) returns (c: int)
      requires Shape() && m == Flat() && (if inIbuff then iblock else oblock) == p / BLOCK_RUNES
      ensures Has(m, p) && c == Peek(m, p)
    {
      c := if inIbuff then ibuff[p % BLOCK_RUNES] else obuff[p % BLOCK_RUNES];
    }
  }
}
