/**
 The line store of `ed` over whole sequences of calls: when every line that was stored
 can be read back, and when one is lost.
 */
module EdSession {
  import opened EdStore

  /** Store a line, or fetch the `k`th line stored. */
  datatype Op = Put(text: seq<int>) | Fetch(k: nat)

  /** Whether a line was stored, or the line that was read, if one was. */
  datatype Reply = Stored(ok: bool) | Line(text: seq<int>) | NoLine

  /** A script that `ed` can run: lines without zero runes, within the line limit. */
  predicate Legal(ops: seq<Op>) {
    forall j :: 0 <= j < |ops| && ops[j].Put? ==> 0 !in ops[j].text && |ops[j].text| < LBSIZE
  }

  /**
   What a script has come to: the next address, the lines and their addresses; whether
   a line that did not fit has taken output on to the last block (`torn`), and if so,
   whether the block of the next line is the one last read (`loaded`); and whether no
   line was struck so far.
   */
  datatype Track = Track(next: nat, lines: seq<seq<int>>, addrs: seq<nat>, torn: bool, loaded: bool, safe: bool) {
    function Block(): nat {
      next / BLOCK_RUNES
    }

    /** The block in which the `k`th line ends. */
    function EndBlock(k: nat): nat
      requires k < |lines| && k < |addrs|
    {
      (addrs[k] + |lines[k]|) / BLOCK_RUNES
    }

    predicate EndsIn(b: nat) {
      exists k: nat :: k < |lines| && k < |addrs| && EndBlock(k) == b
    }

    predicate Fits(text: seq<int>) {
      (next + |FirstLine(text)|) / BLOCK_RUNES < NBLK
    }

    /** A store that writes over lines: their block was left, and is not the one last read. */
    predicate Strikes(op: Op) {
      op.Put? && torn && !loaded && EndsIn(Block())
    }

    function Step(op: Op): Track {
      var safe' := safe && !Strikes(op);
      match op
      case Fetch(k) =>
        if k < |lines| && k < |addrs| && torn then this.(loaded := EndBlock(k) == Block(), safe := safe')
        else this.(safe := safe')
      case Put(text) =>
        var line := FirstLine(text);
        if Fits(text) then
          var next' := next + Mask(|line| + 4);
          var stays := torn && loaded && (next + |line|) / BLOCK_RUNES == next' / BLOCK_RUNES == Block();
          Track(next', lines + [line], addrs + [next], stays, stays, safe')
        else if Block() < NBLK - 1 then this.(torn := true, loaded := torn && loaded, safe := safe')
        else this.(torn := false, loaded := false, safe := safe')
    }
  }

  const START := Track(2, [], [], false, false, true)

  function After(ops: seq<Op>): Track {
    if ops == [] then START else After(ops[..|ops| - 1]).Step(ops[|ops| - 1])
  }

  /** What an operation should reply when it is called as `tr` says. */
  function Answer(tr: Track, op: Op): Reply {
    match op
    case Put(text) => Stored(tr.Fits(text))
    case Fetch(k) => if k < |tr.lines| then Line(tr.lines[k]) else NoLine
  }

  // ---- the store keeps to it ----

  /** Every line stored so far is at its address, even, and below the next one. */
  ghost predicate Remembers(m: Image, tline: nat, addrs: seq<nat>, lines: seq<seq<int>>) {
    && |addrs| == |lines|
    && forall k :: 0 <= k < |addrs| ==>
         addrs[k] % 2 == 0 && addrs[k] + |lines[k]| < tline && 0 !in lines[k] && Holds(m, addrs[k], lines[k])
  }

  /** Lines stay where they are if what is below them stays, or if they end below what does. */
  lemma RemembersKept(m: Image, m': Image, tr: Track, limit: nat)
    requires Remembers(m, tr.next, tr.addrs, tr.lines) && Kept(m, m', limit)
    requires limit == tr.next || (limit == tr.Block() * BLOCK_RUNES && !tr.EndsIn(tr.Block()))
    ensures Remembers(m', tr.next, tr.addrs, tr.lines)
  {
    forall k: nat | k < |tr.addrs|
      ensures Holds(m', tr.addrs[k], tr.lines[k])
    {
      assert tr.EndBlock(k) == tr.Block() ==> tr.EndsIn(tr.Block());
      HoldsKept(m, m', limit, tr.addrs[k], tr.lines[k]);
    }
  }

  lemma RemembersMore(m: Image, tline: nat, addrs: seq<nat>, lines: seq<seq<int>>, t: seq<int>,
                      tline': nat, addrs': seq<nat>, lines': seq<seq<int>>)
    requires Remembers(m, tline, addrs, lines) && tline % 2 == 0
    requires Holds(m, tline, t) && 0 !in t && tline + |t| < tline'
    requires addrs' == addrs + [tline] && lines' == lines + [t]
    ensures Remembers(m, tline', addrs', lines')
  {
  }

  /**
   The block in the input buffer lies no further than the next line; and output is
   brimful at the last block, or at the next line, or the next line opens a block.
   */
  ghost predicate Placed(tr: Track, iblock: int, oblock: int, brimful: bool) {
    && iblock <= tr.Block()
    && if tr.torn then
         tr.Block() < NBLK - 1 && oblock == NBLK - 1 && brimful && (tr.loaded <==> iblock == tr.Block())
       else
         (oblock == tr.Block() && iblock != tr.Block()) || (!tr.EndsIn(tr.Block()) && iblock != tr.Block())
  }

  /** The store is as `tr` says, and remembers all lines. */
  ghost predicate Keeping(s: Store, tr: Track)
    reads s, s.ibuff, s.obuff
  {
    && s.Shape() && s.tline == tr.next && tr.next % 2 == 0
    && Remembers(s.Flat(), tr.next, tr.addrs, tr.lines)
    && Placed(tr, s.iblock, s.oblock, s.Brimful())
  }

  /** The store has the addresses right, whatever became of the lines. */
  ghost predicate Addressed(s: Store, tr: Track)
    reads s, s.ibuff, s.obuff
  {
    s.Shape() && s.tline == tr.next && |tr.addrs| == |tr.lines|
  }

  /** After a strike, the lines that end in the block are gone, and only those. */
  ghost predicate Struck(m: Image, tr: Track) {
    && |tr.addrs| == |tr.lines|
    && forall k: nat :: k < |tr.lines| ==> (Holds(m, tr.addrs[k], tr.lines[k]) <==> tr.EndBlock(k) != tr.Block())
  }

  lemma StrikeIff(m: Image, m': Image, tr: Track, stale: seq<int>)
    requires Remembers(m, tr.next, tr.addrs, tr.lines) && Kept(m, m', tr.Block() * BLOCK_RUNES)
    requires Shows(m', tr.Block(), stale, tr.next) && forall i :: 0 <= i < |stale| ==> stale[i] != 0
    ensures Struck(m', tr)
  {
    forall k: nat | k < |tr.lines|
      ensures Holds(m', tr.addrs[k], tr.lines[k]) <==> tr.EndBlock(k) != tr.Block()
    {
      var end := tr.addrs[k] + |tr.lines[k]|;
      var there := Has(m', end);
      if tr.EndBlock(k) != tr.Block() {
        HoldsKept(m, m', tr.Block() * BLOCK_RUNES, tr.addrs[k], tr.lines[k]);
      }
    }
  }

  // ---- one call ----

  /** Where output is after a line was stored. */
  lemma StoredPlaced(m: Image, tr: Track, text: seq<int>, iblock: int, ob: int, oblock: int, brim: bool, brimful: bool)
    requires Remembers(m, tr.next, tr.addrs, tr.lines) && |text| < LBSIZE && tr.Fits(text)
    requires Placed(tr, iblock, ob, brim) && !tr.Strikes(Put(text))
    requires var e := (tr.next + |FirstLine(text)|) / BLOCK_RUNES;
             && (iblock != e ==> oblock == e)
             && (iblock == tr.Block() == e ==> oblock == ob && brimful == brim)
    ensures Placed(tr.Step(Put(text)), iblock, oblock, brimful)
  {
    var line, tr' := FirstLine(text), tr.Step(Put(text));
    MaskRounds(|line| + 1);
    var end := tr.next + |line|;
    if tr'.Block() != end / BLOCK_RUNES {
      forall k: nat | k < |tr'.lines|
        ensures tr'.EndBlock(k) != tr'.Block()
      {
        assert k < |tr.lines| ==> tr.addrs[k] + |tr.lines[k]| < tr.next;
      }
    }
  }

  /** Where output is after a line that did not fit. */
  lemma FailedPlaced(m: Image, tr: Track, text: seq<int>, iblock: int, ob: int, oblock: int, brim: bool, brimful: bool)
    requires Remembers(m, tr.next, tr.addrs, tr.lines) && !tr.Fits(text) && iblock < NBLK
    requires Placed(tr, iblock, ob, brim) && !tr.Strikes(Put(text))
    requires tr.Block() < NBLK - 1 && iblock != NBLK - 1 ==> oblock == NBLK - 1 && brimful
    requires tr.Block() == NBLK - 1 && iblock != NBLK - 1 ==> oblock == NBLK - 1
    ensures Placed(tr.Step(Put(text)), iblock, oblock, brimful)
  {
    var tr' := tr.Step(Put(text));
    if tr.Block() >= NBLK {
      forall k: nat | k < |tr.lines|
        ensures tr'.EndBlock(k) != tr'.Block()
      {
        assert Has(m, tr.addrs[k] + |tr.lines[k]|);
      }
    }
  }

  /** Where output is after a line was read. */
  lemma FetchedPlaced(m: Image, tr: Track, k: nat, ib: int, iblock: int, oblock: int, brimful: bool)
    requires Remembers(m, tr.next, tr.addrs, tr.lines) && k < |tr.lines| && Placed(tr, ib, oblock, brimful)
    requires oblock != tr.EndBlock(k) ==> iblock == tr.EndBlock(k)
    requires iblock == ib || tr.addrs[k] / BLOCK_RUNES <= iblock <= tr.EndBlock(k)
    requires iblock == oblock ==> iblock == -1
    ensures Placed(tr.Step(Fetch(k)), iblock, oblock, brimful)
  {
    assert tr.addrs[k] + |tr.lines[k]| < tr.next;
    assert tr.EndBlock(k) == tr.Block() ==> tr.EndsIn(tr.Block());
    var tr' := tr.Step(Fetch(k));
    assert tr'.EndsIn(tr.Block()) ==> tr.EndsIn(tr.Block()) by {
      if tr'.EndsIn(tr.Block()) {
        var j: nat :| j < |tr.lines| && tr'.EndBlock(j) == tr.Block();
        assert tr.EndBlock(j) == tr.Block();
      }
    }
  }

  /** A line that strikes nothing leaves all lines where they are. */
  lemma NoStrikeKeeps(m: Image, m': Image, tr: Track, op: Op, iblock: int, oblock: int, brimful: bool)
    requires op.Put? && !tr.Strikes(op) && Remembers(m, tr.next, tr.addrs, tr.lines)
    requires Placed(tr, iblock, oblock, brimful) && Kept(m, m', tr.Block() * BLOCK_RUNES)
    requires iblock == tr.Block() || oblock == tr.Block() ==> Kept(m, m', tr.next)
    ensures Remembers(m', tr.next, tr.addrs, tr.lines)
  {
    if iblock == tr.Block() || oblock == tr.Block() {
      RemembersKept(m, m', tr, tr.next);
    } else {
      RemembersKept(m, m', tr, tr.Block() * BLOCK_RUNES);
    }
  }

  /** What a line leaves is right, if it strikes nothing. */
  lemma StoreKeeps(m: Image, m': Image, tr: Track, tr': Track, text: seq<int>, e: int,
                   iblock: int, ob: int, oblock: int, brim: bool, brimful: bool)
    requires tr' == tr.Step(Put(text)) && e == (tr.next + |FirstLine(text)|) / BLOCK_RUNES
    requires Remembers(m, tr.next, tr.addrs, tr.lines) && tr.next % 2 == 0 && |text| < LBSIZE && 0 !in text
    requires Placed(tr, iblock, ob, brim) && !tr.Strikes(Put(text)) && iblock < NBLK
    requires Kept(m, m', tr.Block() * BLOCK_RUNES)
    requires iblock == tr.Block() || ob == tr.Block() ==> Kept(m, m', tr.next)
    requires tr.Fits(text) && iblock != e ==> oblock == e
    requires tr.Fits(text) && iblock == tr.Block() == e ==> oblock == ob && brimful == brim
    requires tr.Fits(text) ==> Holds(m', tr.next, FirstLine(text))
    requires !tr.Fits(text) && iblock != NBLK - 1 && tr.Block() < NBLK - 1 ==> oblock == NBLK - 1 && brimful
    requires !tr.Fits(text) && iblock != NBLK - 1 && tr.Block() == NBLK - 1 ==> oblock == NBLK - 1
    ensures Placed(tr', iblock, oblock, brimful)
    ensures tr'.next % 2 == 0 && Remembers(m', tr'.next, tr'.addrs, tr'.lines)
  {
    NoStrikeKeeps(m, m', tr, Put(text), iblock, ob, brim);
    if tr.Fits(text) {
      StoredPlaced(m, tr, text, iblock, ob, oblock, brim, brimful);
      StepStores(tr, text);
      LineRemembered(m', tr.next, tr.addrs, tr.lines, FirstLine(text), tr'.next, tr'.addrs, tr'.lines);
    } else {
      FailedPlaced(m, tr, text, iblock, ob, oblock, brim, brimful);
    }
  }

  lemma StepAddressed(tr: Track, text: seq<int>)
    requires |tr.addrs| == |tr.lines|
    ensures |tr.Step(Put(text)).addrs| == |tr.Step(Put(text)).lines|
    ensures tr.Step(Put(text)).next == tr.next + if tr.Fits(text) then Mask(|FirstLine(text)| + 4) else 0
  {
  }

  lemma StepStores(tr: Track, text: seq<int>)
    requires tr.Fits(text)
    ensures var tr', line := tr.Step(Put(text)), FirstLine(text);
            && tr'.next == tr.next + Mask(|line| + 4)
            && tr'.addrs == tr.addrs + [tr.next] && tr'.lines == tr.lines + [line]
  {
  }

  lemma LineRemembered(m: Image, a: nat, addrs: seq<nat>, lines: seq<seq<int>>, line: seq<int>,
                       a': nat, addrs': seq<nat>, lines': seq<seq<int>>)
    requires a' == a + Mask(|line| + 4) && addrs' == addrs + [a] && lines' == lines + [line]
    requires Remembers(m, a, addrs, lines) && a % 2 == 0 && Holds(m, a, line) && 0 !in line && |line| < LBSIZE
    ensures a' % 2 == 0 && Remembers(m, a', addrs', lines')
  {
    NextEven(a, |line|);
    RemembersMore(m, a, addrs, lines, line, a', addrs', lines');
  }

  /** The address after a line is even and past the line. */
  lemma NextEven(a: nat, len: nat)
    requires a % 2 == 0 && len < LBSIZE
    ensures (a + Mask(len + 4)) % 2 == 0 && a + len < a + Mask(len + 4)
  {
    MaskRounds(len + 1);
    assert Mask(len + 4) == (len + 4) / 2 * 2;
  }

  /**
   `putline` in a store that remembers its lines: it still does, unless the line strikes;
   and then exactly the lines that end in the block are lost.
   */
  method StoreOne(s: Store, text: seq<int>, ghost tr: Track) returns (ok: bool, addr: nat)
    requires Addressed(s, tr) && 0 !in text && |text| < LBSIZE
    modifies s, s.ibuff, s.obuff
    ensures Addressed(s, tr.Step(Put(text))) && ok == tr.Fits(text) && addr == tr.next
    ensures old(Keeping(s, tr)) && !tr.Strikes(Put(text)) ==> Keeping(s, tr.Step(Put(text)))
    ensures old(Keeping(s, tr)) && tr.Strikes(Put(text)) ==> Struck(s.Flat(), tr)
  {
    ghost var keeping, m, stale, ob, brim := Keeping(s, tr), s.Flat(), s.obuff[..], s.oblock, s.Brimful();
    var next;
    ok, addr, next := s.PutLine(text);
    StepAddressed(tr, text);
    if keeping {
      if tr.Strikes(Put(text)) {
        StrikeIff(m, s.Flat(), tr, stale);
      } else {
        StoreKeeps(m, s.Flat(), tr, tr.Step(Put(text)), text, (tr.next + |FirstLine(text)|) / BLOCK_RUNES,
                   s.iblock, ob, s.oblock, brim, s.Brimful());
      }
    }
  }

  /** Reading a line that is there gives it. */
  lemma ReadsLine(m: Image, a: nat, t: seq<int>, ok: bool, line: seq<int>)
    requires Holds(m, a, t) && 0 !in t && Runes(m, a, line)
    requires if ok then Holds(m, a, line) else !Has(m, a + |line|)
    ensures ok && line == t
  {
    assert Has(m, a + |t|);
    assert |line| <= |t|;
    assert Has(m, a + |line|);
    HoldsUnique(m, a, t, line);
  }

  /** Text without zero runes at an address is determined by the image. */
  lemma HoldsUnique(m: Image, a: nat, t: seq<int>, u: seq<int>)
    requires Holds(m, a, t) && Holds(m, a, u) && 0 !in t && 0 !in u
    ensures t == u
  {
    assert Has(m, a + |t|) && Has(m, a + |u|);
    assert |t| == |u|;
    forall i | 0 <= i < |t| ensures t[i] == u[i] {
      assert Has(m, a + i);
    }
  }

  /** `getline` in a store that remembers its lines. */
  method FetchOne(s: Store, k: nat, addrs: seq<nat>, ghost tr: Track) returns (r: Reply)
    requires Addressed(s, tr) && addrs == tr.addrs
    modifies s, s.ibuff
    ensures Addressed(s, tr.Step(Fetch(k)))
    ensures old(Keeping(s, tr)) ==> Keeping(s, tr.Step(Fetch(k))) && r == Answer(tr, Fetch(k))
    ensures k < |addrs| && !Holds(old(s.Flat()), tr.addrs[k], tr.lines[k]) ==> r != Answer(tr, Fetch(k))
  {
    r := NoLine;
    if k < |addrs| {
      ghost var keeping, m, ib, brim := Keeping(s, tr), s.Flat(), s.iblock, s.Brimful();
      var ok, line := s.GetLine(addrs[k]);
      if ok {
        r := Line(line);
      }
      if keeping {
        assert Has(m, tr.addrs[k] + |tr.lines[k]|);
        ReadsLine(m, addrs[k], tr.lines[k], ok, line);
        FetchedPlaced(m, tr, k, ib, s.iblock, s.oblock, s.Brimful());
      }
    }
  }

  // ---- whole scripts ----

  lemma AfterNext(ops: seq<Op>, j: nat)
    requires j < |ops|
    ensures After(ops[..j + 1]) == After(ops[..j]).Step(ops[j])
  {
    assert ops[..j + 1][..j] == ops[..j];
  }

  /** A line that ends in the block that the operation before has just struck. */
  ghost predicate JustStruck(ops: seq<Op>, j: nat)
    requires j < |ops|
  {
    && j > 0 && After(ops[..j - 1]).safe && After(ops[..j - 1]).Strikes(ops[j - 1]) && ops[j].Fetch?
    && var tr, k := After(ops[..j - 1]), ops[j].k;
       k < |tr.lines| && k < |tr.addrs| && tr.EndBlock(k) == tr.Block()
  }

  /** The image right after a strike. */
  ghost predicate Pending(m: Image, ops: seq<Op>, j: nat) {
    && j <= |ops|
    && (j > 0 && After(ops[..j - 1]).safe && After(ops[..j - 1]).Strikes(ops[j - 1]) ==> Struck(m, After(ops[..j - 1])))
  }

  lemma PendingReads(m: Image, ops: seq<Op>, j: nat)
    requires j < |ops| && Pending(m, ops, j) && JustStruck(ops, j)
    ensures var tr, k := After(ops[..j]), ops[j].k;
            k < |tr.addrs| && k < |tr.lines| && !Holds(m, tr.addrs[k], tr.lines[k])
  {
    AfterNext(ops, j - 1);
    var tr, k := After(ops[..j - 1]), ops[j].k;
    assert !Holds(m, tr.addrs[k], tr.lines[k]);
  }

  /** A reply is right while no line has been struck, and wrong for a line just struck. */
  ghost predicate Replied(ops: seq<Op>, j: nat, r: Reply) {
    && j < |ops|
    && (After(ops[..j]).safe ==> r == Answer(After(ops[..j]), ops[j]))
    && (JustStruck(ops, j) ==> r != Answer(After(ops[..j]), ops[j]))
  }

  /** What is known of the store between operations. */
  ghost predicate Between(s: Store, ops: seq<Op>, j: nat, addrs: seq<nat>)
    reads s, s.ibuff, s.obuff
  {
    && j <= |ops| && addrs == After(ops[..j]).addrs
    && Addressed(s, After(ops[..j])) && (After(ops[..j]).safe ==> Keeping(s, After(ops[..j])))
    && Pending(s.Flat(), ops, j)
  }

  /** One operation of a script. */
  method RunOne(s: Store, ops: seq<Op>, j: nat, addrs: seq<nat>) returns (r: Reply, addrs': seq<nat>)
    requires Legal(ops) && j < |ops| && Between(s, ops, j, addrs)
    modifies s, s.ibuff, s.obuff
    ensures Between(s, ops, j + 1, addrs') && Replied(ops, j, r)
  {
    ghost var tr := After(ops[..j]);
    AfterNext(ops, j);
    addrs' := addrs;
    match ops[j] {
    case Put(text) =>
      var ok, addr := StoreOne(s, text, tr);
      if ok {
        addrs' := addrs + [addr];
      }
      r := Stored(ok);
    case Fetch(k) =>
      if JustStruck(ops, j) {
        PendingReads(s.Flat(), ops, j);
      }
      r := FetchOne(s, k, addrs, tr);
    }
  }

  /**
   Whatever sequence of stores and fetches is run on a new store, all replies are right
   as long as no line has been struck; and once one was, fetching it is not.
   */
  method RunScript(ops: seq<Op>) returns (out: seq<Reply>)
    requires Legal(ops)
    ensures |out| == |ops|
    ensures forall j :: 0 <= j < |ops| && After(ops[..j]).safe ==> out[j] == Answer(After(ops[..j]), ops[j])
    ensures forall j :: 0 <= j < |ops| && JustStruck(ops, j) ==> out[j] != Answer(After(ops[..j]), ops[j])
  {
    var s := new Store();
    var addrs: seq<nat> := [];
    out := [];
    var j := 0;
    assert ops[..0] == [];
    while j < |ops|
      invariant 0 <= j <= |ops| && |out| == j
      invariant fresh(s) && fresh(s.ibuff) && fresh(s.obuff) && Between(s, ops, j, addrs)
      invariant forall i :: 0 <= i < j ==> Replied(ops, i, out[i])
    {
      var r;
      r, addrs := RunOne(s, ops, j, addrs);
      out := out + [r];
      j := j + 1;
    }
  }

  lemma AfterSnoc(ops: seq<Op>, op: Op)
    ensures After(ops + [op]) == After(ops).Step(op)
  {
    assert (ops + [op])[..|ops|] == ops;
  }

  /** The lines of a script are still its lines after one operation more. */
  lemma LinesGrow(tr: Track, op: Op)
    ensures tr.lines <= tr.Step(op).lines && tr.addrs <= tr.Step(op).addrs
  {
  }

  /** A line fetched right after a script: as it was stored, unless the last operation struck it. */
  method FetchAfter(ops: seq<Op>, k: nat) returns (r: Reply)
    requires Legal(ops) && ops != [] && After(ops[..|ops| - 1]).safe && k < |After(ops).lines|
    ensures After(ops).safe ==> r == Line(After(ops).lines[k])
    ensures !After(ops).safe && JustStruck(ops + [Fetch(k)], |ops|) ==> r != Line(After(ops).lines[k])
  {
    var all := ops + [Fetch(k)];
    assert all[..|ops|] == ops && all[|ops|] == Fetch(k);
    var out := RunScript(all);
    r := out[|ops|];
  }

  /**
   As long as no line was struck before the last operation: all lines stored can be
   fetched after it if and only if it strikes none.
   */
  method FetchEach(ops: seq<Op>) returns (replies: seq<Reply>)
    requires Legal(ops) && ops != [] && After(ops[..|ops| - 1]).safe
    ensures |replies| == |After(ops).lines|
    ensures (forall k :: 0 <= k < |replies| ==> replies[k] == Line(After(ops).lines[k])) <==> After(ops).safe
  {
    replies := [];
    while |replies| < |After(ops).lines|
      invariant |replies| <= |After(ops).lines|
      invariant After(ops).safe ==> forall k :: 0 <= k < |replies| ==> replies[k] == Line(After(ops).lines[k])
      invariant !After(ops).safe ==>
                  forall k :: 0 <= k < |replies| && JustStruck(ops + [Fetch(k)], |ops|) ==>
                    replies[k] != Line(After(ops).lines[k])
    {
      var r := FetchAfter(ops, |replies|);
      replies := replies + [r];
    }
    if !After(ops).safe {
      SomeStruck(ops);
    }
  }

  /** A strike, seen on the script. */
  lemma StrikeScript(o: seq<Op>, op: Op, ops: seq<Op>, k: nat)
    requires ops == o + [op] && After(o).safe && After(o).Strikes(op)
    requires k < |After(o).lines| && k < |After(o).addrs| && After(o).EndBlock(k) == After(o).Block()
    ensures ops[..|ops| - 1] == o && !After(ops).safe && JustStruck(ops + [Fetch(k)], |ops|)
    ensures k < |After(ops).lines| && After(ops).lines[k] == After(o).lines[k]
  {
    AfterSnoc(o, op);
    LinesGrow(After(o), op);
    var all := ops + [Fetch(k)];
    assert all[..|ops| - 1] == o && all[|ops| - 1] == op && all[|ops|] == Fetch(k);
  }

  lemma {:induction false} SomeStruck(ops: seq<Op>)
    requires ops != [] && After(ops[..|ops| - 1]).safe && !After(ops).safe
    ensures exists k: nat :: k < |After(ops).lines| && JustStruck(ops + [Fetch(k)], |ops|)
  {
    var o, op := ops[..|ops| - 1], ops[|ops| - 1];
    assert ops == o + [op];
    AfterSnoc(o, op);
    var tr := After(o);
    var k: nat :| k < |tr.lines| && k < |tr.addrs| && tr.EndBlock(k) == tr.Block();
    StrikeScript(o, op, ops, k);
  }

  // ---- a script that loses a line ----

  /** A line of `n` times the same rune. */
  function Full(n: nat): seq<int> {
    seq(n, _ => 120)
  }

  lemma FirstLineFull(n: nat)
    ensures FirstLine(Full(n)) == Full(n)
    decreases n
  {
    if n > 0 {
      assert Full(n)[1..] == Full(n - 1);
      FirstLineFull(n - 1);
    }
  }

  /** `n` lines of `len` runes. */
  function Fill(n: nat, len: nat): seq<Op> {
    if n == 0 then [] else Fill(n - 1, len) + [Put(Full(len))]
  }

  /** Lines of 4092 runes take four blocks each. */
  lemma FillAfter(n: nat, len: nat)
    requires n <= 2047 && len == 4092
    ensures Legal(Fill(n, len)) && |After(Fill(n, len)).lines| == |After(Fill(n, len)).addrs| == n
    ensures var tr := After(Fill(n, len)); tr.next == 2 + 4096 * n && !tr.torn && !tr.loaded && tr.safe
    decreases n
  {
    if n > 0 {
      FillAfter(n - 1, len);
      FirstLineFull(len);
      AfterSnoc(Fill(n - 1, len), Put(Full(len)));
      FillStep(After(Fill(n - 1, len)), n, len);
    }
  }

  lemma FillStep(tr: Track, n: nat, len: nat)
    requires 0 < n <= 2047 && len == 4092 && tr.next == 2 + 4096 * (n - 1) && !tr.torn && tr.safe
    requires FirstLine(Full(len)) == Full(len)
    ensures var tr' := tr.Step(Put(Full(len)));
            && tr'.next == 2 + 4096 * n && !tr'.torn && !tr'.loaded && tr'.safe
            && |tr'.lines| == |tr.lines| + 1 && |tr'.addrs| == |tr.addrs| + 1
  {
  }

  /** The file all but full, a short line, a line that does not fit, and another short line. */
  function LosingScript(n: nat, len: nat, long: nat): seq<Op> {
    Fill(n, len) + [Put([120])] + [Put(Full(long))] + [Put([120])]
  }

  /** After a line that does not fit, output is on the last block, and the next line strikes. */
  lemma Losing(t1: Track, t2: Track, t3: Track, long: nat)
    requires t1.next == 8384514 && !t1.torn && t1.safe && |t1.lines| == |t1.addrs| == 2047 && long == 4000
    requires FirstLine(Full(long)) == Full(long) && FirstLine([120]) == [120]
    requires t2 == t1.Step(Put([120])) && t3 == t2.Step(Put(Full(long)))
    ensures t2.lines[..] == t1.lines + [[120]] && t3.lines == t2.lines && t3.addrs == t2.addrs && |t3.addrs| == 2048
    ensures t3.safe && t3.Strikes(Put([120])) && t3.EndBlock(2047) == t3.Block()
  {
    assert t2.next == 8384518;
    assert t3.next == t2.next && t3.torn && !t3.loaded;
    assert t3.addrs[2047] == 8384514 && t3.lines[2047] == [120];
    assert t3.EndBlock(2047) == 8188 == t3.Block();
  }

  lemma LegalSnoc(ops: seq<Op>, op: Op)
    requires Legal(ops) && op.Put? && 0 !in op.text && |op.text| < LBSIZE
    ensures Legal(ops + [op])
  {
  }

  lemma LosingTail(o1: seq<Op>, o2: seq<Op>, o3: seq<Op>, short: seq<int>, long: nat)
    requires After(o1).next == 8384514 && !After(o1).torn && After(o1).safe && long == 4000 && short == [120]
    requires |After(o1).lines| == |After(o1).addrs| == 2047
    requires o2 == o1 + [Put(short)] && o3 == o2 + [Put(Full(long))]
    ensures After(o3).safe && After(o3).Strikes(Put(short)) && |After(o3).lines| == |After(o3).addrs| == 2048
    ensures After(o3).EndBlock(2047) == After(o3).Block() && After(o3).lines[2047] == short
  {
    AfterSnoc(o1, Put(short));
    AfterSnoc(o2, Put(Full(long)));
    FirstLineFull(long);
    assert FirstLine(short) == short;
    Losing(After(o1), After(o2), After(o3), long);
  }

  lemma LosingScriptStrikes(n: nat, len: nat, long: nat, ops: seq<Op>)
    requires n == 2047 && len == 4092 && long == 4000 && ops == LosingScript(n, len, long)
    ensures Legal(ops) && After(ops[..|ops| - 1]).safe && !After(ops).safe && JustStruck(ops + [Fetch(n)], |ops|)
    ensures n < |After(ops).lines| && After(ops).lines[n] == [120]
  {
    FillAfter(n, len);
    var o1, short := Fill(n, len), [120];
    var o2 := o1 + [Put(short)];
    var o3 := o2 + [Put(Full(long))];
    LegalSnoc(o1, Put(short));
    LegalSnoc(o2, Put(Full(long)));
    LegalSnoc(o3, Put(short));
    LosingTail(o1, o2, o3, short, long);
    StrikeScript(o3, Put(short), ops, n);
  }

  /** Such a script run: the line stored before the one that did not fit does not come back. */
  method LoseLine(n: nat, len: nat, long: nat) returns (r: Reply)
    requires n == 2047 && len == 4092 && long == 4000
    ensures n < |After(LosingScript(n, len, long)).lines| && After(LosingScript(n, len, long)).lines[n] == [120]
    ensures r != Line([120])
  {
    var ops := LosingScript(n, len, long);
    LosingScriptStrikes(n, len, long, ops);
    r := FetchAfter(ops, n);
  }

  // ---- the mark bit ----

  /**
   A marked address is the stored one plus one, and with 32-bit runes `getblock` does not
   mask that bit off: what is found there is the line without its first rune.
   */
  lemma MarkedLine(m: Image, a: nat, t: seq<int>)
    requires Holds(m, a, t) && t != []
    ensures Holds(m, a + 1, t[1..]) && t[1..] != t
  {
    forall p: nat | a + 1 <= p <= a + 1 + |t[1..]|
      ensures Has(m, p) && Peek(m, p) == if p < a + 1 + |t[1..]| then t[1..][p - (a + 1)] else 0
    {
      assert Has(m, p);
    }
  }

  /** After an empty line a marked address leads to the rune that happens to follow it. */
  lemma MarkedEmptyLine(m: Image, a: nat)
    requires Holds(m, a, [])
    ensures Holds(m, a + 1, []) <==> Has(m, a + 1) && Peek(m, a + 1) == 0
  {
    if Holds(m, a + 1, []) {
      assert Has(m, a + 1);
    }
  }

  /** An unmarked line, or an empty one that a zero happens to follow. */
  ghost predicate Readable(m: Image, a: nat, t: seq<int>, mark: nat) {
    ImageOk(m) && (mark == 0 || (t == [] && Has(m, a + 1) && Peek(m, a + 1) == 0))
  }

  /** The text is at the address, mark bit and all, exactly if it is readable there. */
  lemma ReadableIffUnmarked(m: Image, a: nat, t: seq<int>, mark: nat)
    requires Holds(m, a, t) && 0 !in t && mark <= 1
    ensures Holds(m, a + mark, t) <==> Readable(m, a, t, mark)
  {
    if mark == 1 {
      if t == [] {
        MarkedEmptyLine(m, a);
      } else {
        MarkedLine(m, a, t);
        if Holds(m, a + 1, t) {
          HoldsUnique(m, a + 1, t, t[1..]);
        }
      }
    }
  }

  /**
   `getline` through an address that may carry a mark: it gives the stored text exactly
   if the line is readable there, and a marked line with text lacks its first rune.
   */
  method FetchMarked(s: Store, a: nat, mark: nat, ghost t: seq<int>) returns (ok: bool, line: seq<int>)
    requires s.Shape() && Holds(s.Flat(), a, t) && 0 !in t && mark <= 1
    modifies s, s.ibuff
    ensures ok && line == t <==> Readable(old(s.Flat()), a, t, mark)
    ensures mark == 1 && t != [] ==> ok && line == t[1..]
  {
    ghost var m := s.Flat();
    ok, line := s.GetLine(a + mark);
    ReadableIffUnmarked(m, a, t, mark);
    if Holds(m, a + mark, t) {
      ReadsLine(m, a + mark, t, ok, line);
    }
    if mark == 1 && t != [] {
      MarkedLine(m, a, t);
      ReadsLine(m, a + 1, t[1..], ok, line);
    }
  }
}
