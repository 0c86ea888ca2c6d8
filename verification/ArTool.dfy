/**
 `ar` rewriting an archive: members and their symbols go into three queues, any memory
 allocation may spill the oldest members, and the queues are streamed out at the end.
 */
module ArTool {
  import opened ArFormat
  import opened ArQueue
  import opened ArDirectory
  import opened ArMemory

  datatype Option<T> = None | Some(value: T)

  datatype Where = Start | Middle | End

  // ---------------------------------------------------------------- collecting symbols

  /** What `objsym` works on: a queue's list, the directory's size, the text symbols, a duplicate. */
  datatype Scan = Scan(sym: seq<Ref>, room: int, texts: set<seq<int>>, dup: bool)

  function ScanSymbol(st: Scan, s: Symbol, offset: int): Scan {
    if !Listed(s) then st
    else if s.kind == 84 && s.name in st.texts then st.(dup := true)
    else Entering(if s.kind == 84 then st.(texts := st.texts + {s.name}) else st, Ref(s.kind, s.name, offset))
  }

  function Entering(st: Scan, r: Ref): Scan {
    st.(sym := [r] + st.sym, room := st.room + (4 + (|r.name| + 1) + 1))
  }

  function ScanAll(st: Scan, syms: seq<Symbol>, offset: int): Scan {
    if syms == [] then st
    else ScanSymbol(ScanAll(st, syms[..|syms| - 1], offset), syms[|syms| - 1], offset)
  }

  /** What the table of text symbols needs for a symbol. */
  function TableNeeds(texts: set<seq<int>>, s: Symbol): seq<Event> {
    if s.kind == 84 then NameNeeds(texts, s.name) else []
  }

  function NameNeeds(texts: set<seq<int>>, name: seq<int>): seq<Event> {
    if name in texts then [] else [Allot]
  }

  /** What a symbol needs: two pieces of memory, and one more for the table if it is a new text symbol. */
  function SymbolNeeds(texts: set<seq<int>>, s: Symbol): seq<Event> {
    if !Listed(s) then [] else [Allot, Allot] + TableNeeds(texts, s)
  }

  function SymbolsNeed(st: Scan, syms: seq<Symbol>, offset: int): seq<Event> {
    if syms == [] then []
    else SymbolsNeed(st, syms[..|syms| - 1], offset)
         + SymbolNeeds(ScanAll(st, syms[..|syms| - 1], offset).texts, syms[|syms| - 1])
  }

  lemma SymbolsNeedSnoc(st: Scan, syms: seq<Symbol>, n: nat, offset: int)
    requires n < |syms|
    ensures SymbolsNeed(st, syms[..n + 1], offset) ==
            SymbolsNeed(st, syms[..n], offset) + SymbolNeeds(ScanAll(st, syms[..n], offset).texts, syms[n])
  {
    assert syms[..n + 1][..n] == syms[..n];
  }

  /** The symbols needed for the first `n` were there, and what became of the next one's. */
  lemma SymbolsWent(was: seq<Event>, mid: seq<Event>, now: seq<Event>, st: Scan, syms: seq<Symbol>, n: nat,
                    offset: int, ok: bool)
    requires n < |syms| && Went(was, mid, SymbolsNeed(st, syms[..n], offset), true)
    requires Went(mid, now, SymbolNeeds(ScanAll(st, syms[..n], offset).texts, syms[n]), ok)
    ensures Went(was, now, SymbolsNeed(st, syms[..n + 1], offset), ok)
    ensures !ok ==> Went(was, now, SymbolsNeed(st, syms, offset), false)
  {
    SymbolsNeedSnoc(st, syms, n, offset);
    WentThen(was, mid, now, SymbolsNeed(st, syms[..n], offset),
             SymbolNeeds(ScanAll(st, syms[..n], offset).texts, syms[n]), ok);
    if !ok {
      SymbolsShort(was, now, st, syms, n + 1, offset);
    }
  }

  lemma {:induction false} SymbolsShort(was: seq<Event>, now: seq<Event>, st: Scan, syms: seq<Symbol>, n: nat,
                                        offset: int)
    requires n <= |syms| && Went(was, now, SymbolsNeed(st, syms[..n], offset), false)
    ensures Went(was, now, SymbolsNeed(st, syms, offset), false)
    decreases |syms| - n
  {
    if n == |syms| {
      assert syms[..n] == syms;
    } else {
      SymbolsNeedSnoc(st, syms, n, offset);
      WentShort(was, now, SymbolsNeed(st, syms[..n], offset),
                SymbolNeeds(ScanAll(st, syms[..n], offset).texts, syms[n]));
      SymbolsShort(was, now, st, syms, n + 1, offset);
    }
  }

  lemma ScanSnoc(st: Scan, syms: seq<Symbol>, n: nat, offset: int)
    requires n < |syms|
    ensures ScanAll(st, syms[..n + 1], offset) == ScanSymbol(ScanAll(st, syms[..n], offset), syms[n], offset)
  {
    assert syms[..n + 1][..n] == syms[..n];
  }

  /** Without a duplicate every text and data symbol is entered, the newest first. */
  lemma {:induction false} ScanEnters(st: Scan, syms: seq<Symbol>, offset: int)
    ensures st.dup ==> ScanAll(st, syms, offset).dup
    ensures !ScanAll(st, syms, offset).dup ==>
              && ScanAll(st, syms, offset).sym == Rev(RefsOf(syms, offset)) + st.sym
              && ScanAll(st, syms, offset).room == Room(RefsOf(syms, offset)) + st.room
  {
    if syms != [] {
      var init, s := syms[..|syms| - 1], syms[|syms| - 1];
      ScanEnters(st, init, offset);
      if Listed(s) {
        EnterOne(RefsOf(init, offset), Ref(s.kind, s.name, offset), st.sym);
      } else {
        assert RefsOf(syms, offset) == RefsOf(init, offset);
      }
    }
  }

  lemma EnterOne(rs: seq<Ref>, r: Ref, sym: seq<Ref>)
    ensures Rev(rs + [r]) + sym == [r] + (Rev(rs) + sym)
    ensures Room(rs + [r]) == Room(rs) + (4 + (|r.name| + 1) + 1)
  {
    assert (rs + [r])[..|rs|] == rs;
  }

  // ---------------------------------------------------------------- the queues

  /** A queue seen from outside. */
  datatype Held = Held(placed: seq<Member>, size: int, sym: seq<Ref>)

  datatype Store = Store(start: Held, middle: Held, end: Held) {
    function At(w: Where): Held {
      match w case Start => start case Middle => middle case End => end
    }
    function With(w: Where, h: Held): Store {
      match w case Start => this.(start := h) case Middle => this.(middle := h) case End => this.(end := h)
    }
    function Members(): Contents {
      Contents(start.placed, middle.placed, end.placed)
    }
  }

  /** A queue with one more member. */
  function Grown(h: Held, m: Member): Held {
    h.(placed := h.placed + [m], size := h.size + |Image(m)|)
  }

  /** A queue's recorded size is what it will stream. */
  ghost predicate Measured(h: Held) {
    h.size == |Images(h.placed)|
  }

  /** Its symbol list has each text and data symbol at its member's offset in the queue. */
  ghost predicate Entered(h: Held) {
    h.sym == Rev(Refs(h.placed, 0))
  }

  lemma EnteredNext(h: Held, h': Held, m: Member)
    requires Measured(h) && Entered(h)
    requires h' == Held(h.placed + [m], h.size + |Image(m)|, Rev(RefsOf(m.syms, h.size)) + h.sym)
    ensures Measured(h') && Entered(h')
  {
    ImagesSnoc(h.placed, m);
    assert (h.placed + [m])[..|h.placed|] == h.placed;
    RevConcat(Refs(h.placed, 0), RefsOf(m.syms, 0 + h.size));
  }

  /** The queues together with what is kept for the directory. */
  datatype Ledger = Ledger(q: Store, room: int, texts: set<seq<int>>, dup: bool, allobj: bool, lastobj: int) {
    function Track(w: Where): Scan {
      Scan(q.At(w).sym, room, texts, dup)
    }
    function Noted(w: Where, sc: Scan): Ledger {
      this.(q := q.With(w, q.At(w).(sym := sc.sym)), room := sc.room, texts := sc.texts, dup := sc.dup)
    }
    /** Symbols are collected as long as all members are readable objects of one type. */
    predicate Scans(m: Member) {
      allobj && m.obj >= 0 && (lastobj < 0 || m.obj == lastobj) && m.readable
    }
    function Unscanned(m: Member): Ledger {
      if !allobj then this
      else if m.obj < 0 || (lastobj >= 0 && m.obj != lastobj) then this.(allobj := false)
      else this.(lastobj := m.obj, allobj := false)
    }
    /** `scanobj` */
    function Scanned(w: Where, m: Member): Ledger {
      if Scans(m) then this.(lastobj := m.obj).Noted(w, ScanAll(Track(w), m.syms, q.At(w).size))
      else Unscanned(m)
    }
    /** What a member's symbols need. */
    function ScanNeeds(w: Where, m: Member): seq<Event> {
      if Scans(m) then SymbolsNeed(Track(w), m.syms, q.At(w).size) else []
    }
    /** `arcopy` */
    function Copied(w: Where, m: Member): Ledger {
      this.(q := q.With(w, Grown(q.At(w), m)))
    }
    /** A member that goes to a queue, or nowhere. */
    function TakenIn(g: Option<Where>, m: Member): Ledger {
      if g.Some? then Placed(g.value, m) else this
    }
    function Placed(w: Where, m: Member): Ledger {
      Scanned(w, m).Copied(w, m)
    }
  }

  /** A member's header, a third queue if the pivot is here, and then its symbols and its bytes. */
  function TurnNeeds(l: Ledger, g: Option<Where>, m: Member, split: bool): seq<Event> {
    HeaderNeeds(split) + MemberNeeds(l, g, m)
  }

  function HeaderNeeds(split: bool): seq<Event> {
    if split then [Allot, Allot] else [Allot]
  }

  function MemberNeeds(l: Ledger, g: Option<Where>, m: Member): seq<Event> {
    if g.Some? then l.ScanNeeds(g.value, m) + [Allot, Keep] else []
  }

  lemma NotedSame(l: Ledger, w: Where)
    ensures l.Noted(w, l.Track(w)) == l
    ensures l.Noted(w, l.Track(w).(dup := true)) == l.(dup := true)
  {
  }

  /** A text symbol seen before only raises the flag; any other listed symbol is entered. */
  lemma NotedRecord(l: Ledger, w: Where, s: Symbol, l': Ledger)
    requires Listed(s) && l' == if s.kind == 84 then l.(texts := l.texts + {s.name}) else l
    ensures l.Noted(w, ScanSymbol(l.Track(w), s, l.q.At(w).size)) ==
            if s.kind == 84 && s.name in l.texts then l.(dup := true)
            else l'.Noted(w, Entering(l'.Track(w), Ref(s.kind, s.name, l'.q.At(w).size)))
  {
  }

  lemma NotedTwice(l: Ledger, w: Where, sc: Scan)
    ensures l.Noted(w, sc).Track(w) == sc && l.Noted(w, sc).q.At(w).size == l.q.At(w).size
    ensures forall sc' :: l.Noted(w, sc).Noted(w, sc') == l.Noted(w, sc')
  {
  }

  const EMPTY := Ledger(Store(Held([], 0, []), Held([], 0, []), Held([], 0, [])), 0, {}, false, true, -1)

  /** What every step keeps: sizes are right, and so are the lists if a directory will be written. */
  ghost predicate Sound(l: Ledger) {
    && Measured(l.q.start) && Measured(l.q.middle) && Measured(l.q.end)
    && (l.allobj && !l.dup ==>
          && Entered(l.q.start) && Entered(l.q.middle) && Entered(l.q.end)
          && l.room == RoomOf(l.q.Members()))
  }

  lemma EmptySound()
    ensures Sound(EMPTY)
  {
  }

  lemma RefsNext(ms: seq<Member>, m: Member)
    ensures Refs(ms + [m], 0) == Refs(ms, 0) + RefsOf(m.syms, |Images(ms)|)
    ensures Room(Refs(ms + [m], 0)) == Room(Refs(ms, 0)) + Room(RefsOf(m.syms, |Images(ms)|))
  {
    assert (ms + [m])[..|ms|] == ms;
    RoomConcat(Refs(ms, 0), RefsOf(m.syms, |Images(ms)|));
  }

  /** One queue replaced: the others keep what they had. */
  lemma SoundWith(l: Ledger, w: Where, h: Held, l': Ledger)
    requires Sound(l) && Measured(h) && l'.q == l.q.With(w, h)
    requires l'.allobj && !l'.dup ==>
               && l.allobj && !l.dup && Entered(h)
               && l'.room - l.room == Room(Refs(h.placed, 0)) - Room(Refs(l.q.At(w).placed, 0))
    ensures Sound(l')
  {
  }

  lemma PlacedSound(l: Ledger, w: Where, m: Member)
    requires Sound(l)
    ensures Sound(l.Placed(w, m))
  {
    var h, l' := l.q.At(w), l.Placed(w, m);
    var h' := l'.q.At(w);
    ImagesSnoc(h.placed, m);
    ScanEnters(l.Track(w), m.syms, h.size);
    PlacedQueue(l, w, m);
    if l'.allobj && !l'.dup {
      EnteredNext(h, h', m);
      RefsNext(h.placed, m);
    }
    SoundWith(l, w, h', l');
  }

  /** Collecting symbols changes a queue's list only. */
  lemma ScannedQueue(l: Ledger, w: Where, m: Member)
    ensures var h, l' := l.q.At(w), l.Scanned(w, m);
            && l'.q == l.q.With(w, h.(sym := l'.q.At(w).sym)) && l'.q.At(w) == h.(sym := l'.q.At(w).sym)
            && (!l'.allobj || (l.allobj && l'.Track(w) == ScanAll(l.Track(w), m.syms, h.size)))
  {
    var sc := ScanAll(l.Track(w), m.syms, l.q.At(w).size);
    if l.Scans(m) {
      NotedQueue(l.(lastobj := m.obj), w, sc);
    }
  }

  lemma NotedQueue(l: Ledger, w: Where, sc: Scan)
    ensures var h, l' := l.q.At(w), l.Noted(w, sc);
            && l'.q == l.q.With(w, h.(sym := sc.sym)) && l'.q.At(w) == h.(sym := sc.sym) && l'.Track(w) == sc
            && l'.allobj == l.allobj
  {
  }

  lemma CopiedQueue(l: Ledger, w: Where, m: Member)
    ensures var h, l' := l.q.At(w), l.Copied(w, m);
            && l'.q == l.q.With(w, Grown(h, m)) && l'.q.At(w) == Grown(h, m) && l'.Track(w) == l.Track(w)
            && l'.allobj == l.allobj
  {
  }

  lemma PlacedQueue(l: Ledger, w: Where, m: Member)
    requires Sound(l)
    ensures var h, l' := l.q.At(w), l.Placed(w, m);
            && Measured(h)
            && l'.q == l.q.With(w, l'.q.At(w)) && l'.q.At(w) == Grown(h, m).(sym := l'.q.At(w).sym)
            && (!l'.allobj || (l.allobj && l'.Track(w) == ScanAll(l.Track(w), m.syms, h.size)))
            && (l.allobj && !l.dup ==> Entered(h))
  {
    ScannedQueue(l, w, m);
    CopiedQueue(l.Scanned(w, m), w, m);
  }

  /** `wrsym`: one entry after the other, offsets counted from the start of the archive. */
  method WrSym(f: Layout, out: seq<int>, offset: int, sym: seq<Ref>) returns (r: seq<int>)
    ensures r == out + Entries(f, Shift(sym, offset))
  {
    r := out;
    var n := 0;
    while n < |sym|
      invariant 0 <= n <= |sym| && r == out + Entries(f, Shift(sym[..n], offset))
    {
      EntriesNext(f, sym, n, offset);
      r := r + Entry(f, sym[n].(offset := sym[n].offset + offset));
      n := n + 1;
    }
    assert sym[..n] == sym;
  }

  lemma EntriesNext(f: Layout, sym: seq<Ref>, n: nat, offset: int)
    requires n < |sym|
    ensures Entries(f, Shift(sym[..n + 1], offset)) ==
            Entries(f, Shift(sym[..n], offset)) + Entry(f, sym[n].(offset := sym[n].offset + offset))
  {
    var r := sym[n].(offset := sym[n].offset + offset);
    assert sym[..n + 1] == sym[..n] + [sym[n]];
    ShiftSnoc(sym[..n], sym[n], offset);
    EntriesConcat(f, Shift(sym[..n], offset), [r]);
    assert [r][1..] == [];
  }

  lemma {:induction false} RevAt(s: seq<Ref>, k: nat)
    requires k < |s|
    ensures Rev(s)[k] == s[|s| - 1 - k]
  {
    if k > 0 {
      RevAt(s[..|s| - 1], k - 1);
    }
  }

  lemma RevShift(rs: seq<Ref>, base: int)
    ensures Shift(Rev(rs), base) == Rev(Shift(rs, base))
  {
    forall k: nat | k < |rs|
      ensures Shift(Rev(rs), base)[k] == Rev(Shift(rs, base))[k]
    {
      RevAt(rs, k);
      RevAt(Shift(rs, base), k);
    }
  }

  /** A queue's list, moved to where the queue is written. */
  lemma QueueEntries(ms: seq<Member>, base: int)
    ensures Shift(Rev(Refs(ms, 0)), base) == Rev(Refs(ms, base))
  {
    RefsShift(ms, base);
    RevShift(Refs(ms, 0), base);
  }

  lemma NewestEntries(f: Layout, x: seq<Ref>, y: seq<Ref>, z: seq<Ref>)
    ensures Entries(f, NewestFirst(x, y, z)) == Entries(f, Rev(x)) + Entries(f, Rev(y)) + Entries(f, Rev(z))
  {
    EntriesConcat(f, Rev(x) + Rev(y), Rev(z));
    EntriesConcat(f, Rev(x), Rev(y));
  }

  lemma RoomBound(c: Contents)
    requires Fits(c)
    ensures RoomOf(c) < 9_999_999_999
  {
  }

  lemma StreamAll(head: seq<int>, c: Contents)
    ensures head + Images(c.start) + Images(c.middle) + Images(c.end) == head + Images(c.All())
  {
    ImagesConcat(c.start + c.middle, c.end);
    ImagesConcat(c.start, c.middle);
  }

  /** The three lists as bytes, each with its queue's place in the archive. */
  function Lists(f: Layout, i: int, j: int, k: int, sym0: seq<Ref>, sym1: seq<Ref>, sym2: seq<Ref>): seq<int> {
    Entries(f, Shift(sym0, i)) + Entries(f, Shift(sym1, j)) + Entries(f, Shift(sym2, k))
  }

  /** `rl`: the directory, written before the members whose offsets it holds. */
  method Rl(out: seq<int>, f: Layout, symdefsize: nat, size0: int, size1: int,
            sym0: seq<Ref>, sym1: seq<Ref>, sym2: seq<Ref>, ghost j: int, ghost k: int)
    returns (r: seq<int>)
    requires out == f.magic && Proper(f) && symdefsize < 9_999_999_999
    requires j == Base(symdefsize) + size0 && k == j + size1
    ensures r == f.magic + (f.header(Even(symdefsize)) + Lists(f, Base(symdefsize), j, k, sym0, sym1, sym2)
            + Padding(symdefsize))
  {
    var len := if symdefsize % 2 == 1 then symdefsize + 1 else symdefsize;
    assert len == Even(symdefsize);
    r := out + f.header(len);
    var offset := len + |r|;
    assert offset == Base(symdefsize);
    Closed(out, f.header(len), Lists(f, offset, j, k, sym0, sym1, sym2), Padding(symdefsize));
    var middle := offset + size0;
    var end := middle + size1;
    assert middle == j && end == k;
    r := Writing(f, r, offset, middle, end, sym0, sym1, sym2);
    if symdefsize % 2 == 1 {
      r := r + [0];
    }
  }

  /** The three lists, each with its queue's place in the archive. */
  method Writing(f: Layout, out: seq<int>, i: int, j: int, k: int, sym0: seq<Ref>, sym1: seq<Ref>, sym2: seq<Ref>)
    returns (r: seq<int>)
    ensures r == out + Lists(f, i, j, k, sym0, sym1, sym2)
  {
    Regrouped(out, Entries(f, Shift(sym0, i)), Entries(f, Shift(sym1, j)), Entries(f, Shift(sym2, k)));
    r := WrSym(f, out, i, sym0);
    r := WrSym(f, r, j, sym1);
    r := WrSym(f, r, k, sym2);
  }

  lemma Closed(m: seq<int>, h: seq<int>, e: seq<int>, p: seq<int>)
    ensures m + h + e + p == m + (h + e + p) && (p == [] ==> m + h + e == m + (h + e + p))
  {
  }

  lemma ListingParts(f: Layout, c: Contents, i: int, j: int, k: int, s0: seq<Ref>, s1: seq<Ref>, s2: seq<Ref>)
    requires s0 == Rev(Refs(c.start, 0)) && s1 == Rev(Refs(c.middle, 0)) && s2 == Rev(Refs(c.end, 0))
    ensures Entries(f, ListingAt(c, i, j, k)) == Lists(f, i, j, k, s0, s1, s2)
  {
    QueueEntries(c.start, i);
    QueueEntries(c.middle, j);
    QueueEntries(c.end, k);
    NewestEntries(f, Refs(c.start, i), Refs(c.middle, j), Refs(c.end, k));
  }

  lemma Regrouped(x: seq<int>, a: seq<int>, b: seq<int>, c: seq<int>)
    ensures x + a + b + c == x + (a + b + c)
  {
  }

  /** What the archive becomes, if it is written at all. */
  ghost function Installed(l: Ledger, f: Layout): Option<seq<int>>
    requires Proper(f) && Fits(l.q.Members())
  {
    var c := l.q.Members();
    RoomBound(c);
    if l.allobj && l.dup then None
    else if l.allobj then Some(Indexed(f, c))
    else Some(Plain(f, c))
  }

  lemma ListingIs(c: Contents, i: int, j: int, k: int)
    requires j == i + |Images(c.start)| && k == j + |Images(c.middle)|
    ensures Listing(c, i) == ListingAt(c, i, j, k)
  {
  }

  /** What the queues record is the listing of their members. */
  lemma ListsAreListing(f: Layout, l: Ledger, i: int, j: int, k: int)
    requires Sound(l) && l.allobj && !l.dup && j == i + l.q.start.size && k == j + l.q.middle.size
    ensures Lists(f, i, j, k, l.q.start.sym, l.q.middle.sym, l.q.end.sym) == Entries(f, Listing(l.q.Members(), i))
  {
    ListingIs(l.q.Members(), i, j, k);
    ListingParts(f, l.q.Members(), i, j, k, l.q.start.sym, l.q.middle.sym, l.q.end.sym);
  }

  lemma InstallFacts(l: Ledger)
    requires Sound(l) && Fits(l.q.Members()) && l.allobj && !l.dup
    ensures 0 <= l.room < 9_999_999_999 && l.room == RoomOf(l.q.Members())
  {
    RoomBound(l.q.Members());
  }

  lemma IndexedIs(f: Layout, c: Contents, room: nat, lists: seq<int>)
    requires room == RoomOf(c) && lists == Entries(f, Listing(c, Base(room)))
    ensures f.magic + (f.header(Even(room)) + lists + Padding(room)) + Images(c.All()) == Indexed(f, c)
  {
  }

  lemma WentBoth(was: seq<Event>)
    ensures Went(was, was + [Allot] + [Keep], [Allot, Keep], true)
  {
  }

  lemma WentFirst(was: seq<Event>)
    ensures Went(was, was + [Allot], [Allot, Keep], false)
  {
    assert [Allot, Keep][..0 + 1] == [Allot];
    assert FailedAt(was, was + [Allot], [Allot, Keep], 0);
  }

  lemma WentOne(was: seq<Event>, ok: bool)
    ensures Went(was, was + [Allot], [Allot], ok)
  {
    assert [Allot][..0 + 1] == [Allot];
    assert !ok ==> FailedAt(was, was + [Allot], [Allot], 0);
  }

  /** A queue's last member is in no other queue. */
  lemma Foreign(q: Arfile, o: Arfile)
    requires q.Valid() && o.Valid() && q != o
    ensures q.tail != null ==> q.tail !in o.chain
  {
    if q.tail != null {
      assert q.tail in q.chain;
    }
  }

  ghost function HeldOf(q: Arfile): Held
    reads q
  {
    Held(q.Placed(), q.size, q.sym)
  }

  ghost function ShelfOf(q: Arfile): Shelf
    reads q`chain, q`paged
  {
    Shelf(|q.chain|, q.paged)
  }

  ghost predicate Whole(q: Arfile)
    reads q, q.chain
  {
    q.Valid()
  }

  /** A new member at the end of one queue leaves the two others alone. */
  method Add(q: Arfile, m: Member, ghost o1: Arfile, ghost o2: Arfile) returns (ghost bp: Armember)
    requires Whole(q) && Whole(o1) && Whole(o2) && q != o1 && q != o2
    modifies q, q.tail
    ensures Whole(q) && Whole(o1) && Whole(o2) && fresh(bp)
    ensures q.chain == old(q.chain) + [bp] && HeldOf(q) == Grown(old(HeldOf(q)), m)
    ensures HeldOf(o1) == old(HeldOf(o1)) && HeldOf(o2) == old(HeldOf(o2))
  {
    Foreign(q, o1);
    Foreign(q, o2);
    var node := new Armember(m, q);
    q.Take(node);
    bp := node;
  }

  class Ar {
    const astart: Arfile
    const amiddle: Arfile
    const aend: Arfile
    var allobj: bool
    var dupfound: bool
    var symdefsize: int
    var lastobj: int
    var texts: set<seq<int>>
    var allocs: nat
    var spills: nat
    /** How many members must be spilled before the n-th allocation succeeds. */
    const pressure: nat -> nat
    /** Whether a spill file can be created at the n-th attempt to spill. */
    const creatable: nat -> bool
    /** Every member that was ever in a chain. */
    ghost var pool: set<Armember>
    /** The allocations so far, and the members that came into core. */
    ghost var events: seq<Event>

    /** A queue that has not been created yet is an empty one. */
    constructor (pressure: nat -> nat, creatable: nat -> bool)
      ensures Valid() && allobj && !dupfound && symdefsize == 0 && texts == {} && lastobj == -1
      ensures Queues() == Store(Held([], 0, []), Held([], 0, []), Held([], 0, []))
      ensures this.pressure == pressure && pool == {} && fresh(astart) && fresh(amiddle) && fresh(aend)
      ensures this.creatable == creatable && events == [] && Steady()
    {
      BalancedStart(pressure);
      astart := new Arfile();
      amiddle := new Arfile();
      aend := new Arfile();
      allobj, dupfound, symdefsize, lastobj, texts, allocs, spills := true, false, 0, -1, {}, 0, 0;
      this.pressure, this.creatable, pool, events := pressure, creatable, {}, [];
    }

    ghost predicate Valid()
      reads this`pool, astart, amiddle, aend, astart.chain, amiddle.chain, aend.chain
    {
      && astart != amiddle && astart != aend && amiddle != aend
      && Whole(astart) && Whole(amiddle) && Whole(aend)
      && Within(astart) && Within(amiddle) && Within(aend)
    }

    /** The queues as far as memory goes. */
    ghost function Shelved(): Shelves
      reads astart`chain, astart`paged, amiddle`chain, amiddle`paged, aend`chain, aend`paged
    {
      Shelves(ShelfOf(astart), ShelfOf(amiddle), ShelfOf(aend))
    }

    /** How many members are in core. */
    ghost function Core(): nat
      reads astart`chain, astart`paged, amiddle`chain, amiddle`paged, aend`chain, aend`paged
    {
      Shelved().Core()
    }

    /** `getspace` has just tried all queues in vain. */
    ghost predicate Stuck()
      reads this`spills, astart`chain, astart`paged, amiddle`chain, amiddle`paged, aend`chain, aend`paged
    {
      spills >= Shelved().Tries() && Shelved().Stuck(creatable, spills - Shelved().Tries())
    }

    /** Memory has lasted so far. */
    ghost predicate Steady()
      reads this`events, this`allocs, astart`chain, astart`paged, amiddle`chain, amiddle`paged, aend`chain, aend`paged
    {
      Balanced(pressure, events, allocs, Core())
    }

    /**
     Memory has run out: an allocation needed members spilled and no queue gives one up;
     if every file could be created, because more were needed than had ever come into core.
     */
    ghost predicate Short()
      reads this`events, this`spills, astart`chain, astart`paged, amiddle`chain, amiddle`paged, aend`chain, aend`paged
    {
      Stuck() && Wanting(pressure, creatable, events)
    }

    ghost predicate Memory(ok: bool)
      reads this`events, this`allocs, this`spills, astart`chain, astart`paged, amiddle`chain, amiddle`paged, aend`chain
      reads aend`paged
    {
      (ok && Steady()) || (!ok && Short())
    }

    ghost predicate Within(q: Arfile)
      reads this`pool, q`chain
    {
      forall x :: x in q.chain ==> x in pool
    }

    ghost function Queues(): Store
      reads astart, amiddle, aend
    {
      Store(HeldOf(astart), HeldOf(amiddle), HeldOf(aend))
    }

    function Queue(w: Where): (q: Arfile)
      ensures q == astart || q == amiddle || q == aend
    {
      match w case Start => astart case Middle => amiddle case End => aend
    }

    /** Spills one member of one queue, if it has any and there is a file for it. */
    method Spill(w: Where) returns (ok: bool)
      requires Valid()
      modifies this`spills, Queue(w)
      ensures Valid() && Queues() == old(Queues())
      ensures ok <==> old(Gives(creatable, ShelfOf(Queue(w)), spills))
      ensures ShelfOf(Queue(w)) == if ok then Taken(old(ShelfOf(Queue(w)))) else old(ShelfOf(Queue(w)))
      ensures spills == old(spills) + Attempts(old(ShelfOf(Queue(w))))
    {
      var q := Queue(w);
      if q.head == null {
        return false;
      }
      ok := q.Page(creatable(spills));
      spills := spills + 1;
    }

    /** `getspace`: a member of the first queue that gives one up; it fails only if none does. */
    method GetSpace() returns (ok: bool)
      requires Valid()
      modifies this`spills, astart, amiddle, aend
      ensures Valid() && Queues() == old(Queues())
      ensures ok <==> !old(Shelved().Stuck(creatable, spills))
      ensures Shelved() == old(Shelved().Spilled(creatable, spills))
      ensures !ok ==> spills == old(spills) + Shelved().Tries()
    {
      ok := Spill(Start);
      if !ok {
        ok := Spill(Middle);
        if !ok {
          ok := Spill(End);
        }
      }
    }

    /** `getspace`, over and over, until `want` members are out of core. */
    method Draw(want: nat) returns (ok: bool)
      requires Valid()
      modifies this`spills, astart, amiddle, aend
      ensures Valid() && Queues() == old(Queues())
      ensures Drawn(creatable, want, old(Core()), Shelved(), spills - Shelved().Tries(), ok)
    {
      var n := want;
      ghost var core := Core();
      ok := true;
      while ok && n > 0
        invariant Valid() && Queues() == old(Queues())
        invariant Drawing(creatable, want, core, Shelved(), spills, n, ok)
        decreases n
      {
        ghost var s, k := Shelved(), spills;
        ok := GetSpace();
        DrawOne(creatable, want, core, s, k, n, Shelved(), spills, ok);
        n := n - 1;
      }
      DrawEnd(creatable, want, core, Shelved(), spills, n, ok);
    }

    /**
     `armalloc`: spills until the allocation succeeds. It takes as many members out of core
     as it needs, and fails only if it needs more and no queue gives one up.
     */
    method Armalloc() returns (ok: bool)
      requires Valid()
      modifies this`allocs, this`spills, astart, amiddle, aend
      ensures Valid() && Queues() == old(Queues()) && allocs == old(allocs) + 1
      ensures Drawn(creatable, pressure(old(allocs)), old(Core()), Shelved(), spills - Shelved().Tries(), ok)
    {
      ok := Draw(pressure(allocs));
      allocs := allocs + 1;
    }

    /** An allocation, and what it means for the balance. */
    method Alloc() returns (ok: bool)
      requires Valid() && Steady()
      modifies this`allocs, this`spills, this`events, astart, amiddle, aend
      ensures Valid() && Queues() == old(Queues()) && events == old(events) + [Allot] && Memory(ok)
    {
      ghost var es, n, core := events, allocs, Core();
      assert Balanced(pressure, es, n, core);
      events := events + [Allot];
      ok := Armalloc();
      AllotOutcome(pressure, creatable, es, n, core, Shelved(), spills - Shelved().Tries(), ok);
    }

    ghost function View(): Ledger
      reads this, astart, amiddle, aend
    {
      Ledger(Queues(), symdefsize, texts, dupfound, allobj, lastobj)
    }

    /** `objsym` */
    method ObjSym(w: Where, s: Symbol) returns (ok: bool)
      requires Valid() && Steady()
      modifies this`allocs, this`spills, this`events, this`texts, this`symdefsize, this`dupfound
      modifies astart, amiddle, aend
      ensures Valid() && Went(old(events), events, SymbolNeeds(old(texts), s), ok) && Memory(ok)
      ensures ok ==> View() == old(View()).Noted(w, ScanSymbol(old(View()).Track(w), s, old(View()).q.At(w).size))
    {
      if s.kind != 84 && s.kind != 68 {
        NotedSame(View(), w);
        return true;
      }
      ok := AllocTwice();
      ghost var mid := events;
      if ok {
        ok := Record(w, s);
        WentThen(old(events), mid, events, [Allot, Allot], TableNeeds(old(texts), s), ok);
      } else {
        WentShort(old(events), events, [Allot, Allot], TableNeeds(old(texts), s));
      }
    }

    /** A text or data symbol goes into the list, unless it is a text symbol seen before. */
    method Record(w: Where, s: Symbol) returns (ok: bool)
      requires Valid() && Steady() && Listed(s)
      modifies this`allocs, this`spills, this`events, this`texts, this`symdefsize, this`dupfound
      modifies astart, amiddle, aend
      ensures Valid() && Went(old(events), events, TableNeeds(old(texts), s), ok) && Memory(ok)
      ensures ok ==> View() == old(View()).Noted(w, ScanSymbol(old(View()).Track(w), s, old(View()).q.At(w).size))
    {
      ghost var l := View();
      var dup := false;
      ok := true;
      if s.kind == 84 {
        dup, ok := Duplicate(s.name);
      } else {
        WentNothing(events);
      }
      if ok {
        Settle(w, s, dup, l);
      }
    }

    /** The symbol is entered, or noted as a duplicate. */
    method Settle(w: Where, s: Symbol, dup: bool, ghost l: Ledger)
      requires Valid() && Steady() && Listed(s) && (dup <==> s.kind == 84 && s.name in l.texts)
      requires View() == if s.kind == 84 then l.(texts := l.texts + {s.name}) else l
      modifies this`symdefsize, this`dupfound, Queue(w)`sym
      ensures Valid() && Steady()
      ensures View() == l.Noted(w, ScanSymbol(l.Track(w), s, l.q.At(w).size))
    {
      NotedRecord(l, w, s, View());
      if dup {
        dupfound := true;
      } else {
        Enter(w, Ref(s.kind, s.name, Queue(w).size));
      }
    }

    /** `duplicate`: looks the name up and adds it if it is new. */
    method Duplicate(name: seq<int>) returns (found: bool, ok: bool)
      requires Valid() && Steady()
      modifies this`allocs, this`spills, this`events, this`texts, astart, amiddle, aend
      ensures Valid() && Queues() == old(Queues())
      ensures ok ==> found == (name in old(texts)) && texts == old(texts) + {name}
      ensures Went(old(events), events, NameNeeds(old(texts), name), ok) && Memory(ok)
    {
      found, ok := name in texts, true;
      if !found {
        ok := Alloc();
        WentOne(old(events), ok);
        if ok {
          texts := texts + {name};
        }
      }
    }

    /** Room for a symbol reference and for its name, or for two queues. */
    method AllocTwice() returns (ok: bool)
      requires Valid() && Steady()
      modifies this`allocs, this`spills, this`events, astart, amiddle, aend
      ensures Valid() && Queues() == old(Queues())
      ensures Went(old(events), events, [Allot, Allot], ok) && Memory(ok)
    {
      ok := Alloc();
      ghost var mid := events;
      WentOne(old(events), ok);
      if ok {
        ok := Alloc();
        WentOne(mid, ok);
        WentThen(old(events), mid, events, [Allot], [Allot], ok);
      } else {
        WentShort(old(events), events, [Allot], [Allot]);
      }
      assert [Allot] + [Allot] == [Allot, Allot];
    }

    method Enter(w: Where, r: Ref)
      requires Valid() && Steady()
      modifies this`symdefsize, Queue(w)`sym
      ensures Steady()
      ensures Valid() && View() == old(View()).Noted(w, Entering(old(View()).Track(w), r))
    {
      symdefsize := symdefsize + (4 + (|r.name| + 1) + 1);
      Queue(w).sym := [r] + Queue(w).sym;
    }

    /** Whether a member's symbols are collected: all members so far are readable objects of one type. */
    method Scannable(m: Member) returns (go: bool)
      requires Valid() && Steady()
      modifies this`allobj, this`lastobj
      ensures go <==> old(View()).Scans(m)
      ensures Steady() && View() == if go then old(View()).(lastobj := m.obj) else old(View()).Unscanned(m)
    {
      if !allobj {
        return false;
      }
      if m.obj < 0 || (lastobj >= 0 && m.obj != lastobj) {
        allobj := false;
        return false;
      }
      lastobj := m.obj;
      if !m.readable {
        allobj := false;
        return false;
      }
      return true;
    }

    /** `scanobj` */
    method ScanObj(w: Where, m: Member) returns (ok: bool)
      requires Valid() && Steady()
      modifies this`allocs, this`spills, this`events, this`texts, this`symdefsize, this`dupfound
      modifies this`allobj, this`lastobj, astart, amiddle, aend
      ensures Valid() && Went(old(events), events, old(View()).ScanNeeds(w, m), ok) && Memory(ok)
      ensures ok ==> View() == old(View()).Scanned(w, m)
    {
      var go := Scannable(m);
      if go {
        ok := ScanSymbols(w, m.syms);
      } else {
        ok := true;
        WentNothing(events);
      }
    }

    /** The symbols of one member, in the order the library reports them. */
    method ScanSymbols(w: Where, syms: seq<Symbol>) returns (ok: bool)
      requires Valid() && Steady()
      modifies this`allocs, this`spills, this`events, this`texts, this`symdefsize, this`dupfound
      modifies astart, amiddle, aend
      ensures Valid() && Memory(ok)
      ensures Went(old(events), events, SymbolsNeed(old(View()).Track(w), syms, old(View()).q.At(w).size), ok)
      ensures ok ==> View() == old(View()).Noted(w, ScanAll(old(View()).Track(w), syms, old(View()).q.At(w).size))
    {
      ghost var l := View();
      ghost var was, st, offset := events, l.Track(w), l.q.At(w).size;
      NotedSame(l, w);
      var n := 0;
      ok := true;
      assert syms[..0] == [];
      while n < |syms|
        invariant 0 <= n <= |syms| && Valid() && Steady() && ok
        invariant View() == l.Noted(w, ScanAll(st, syms[..n], offset))
        invariant Went(was, events, SymbolsNeed(st, syms[..n], offset), true)
      {
        ghost var mid := events;
        NotedTwice(l, w, ScanAll(st, syms[..n], offset));
        ScanSnoc(st, syms, n, offset);
        ok := ObjSym(w, syms[n]);
        SymbolsWent(was, mid, events, st, syms, n, offset, ok);
        if !ok {
          return;
        }
        n := n + 1;
      }
      assert syms[..n] == syms;
    }

    /** `arcopy`: room is made for the member's bytes, then it joins its queue. */
    method ArCopy(w: Where, m: Member) returns (ok: bool)
      requires Valid() && Steady()
      modifies this`allocs, this`spills, this`events, this`pool, astart, amiddle, aend, pool
      ensures Valid() && (forall x :: x in pool ==> x in old(pool) || fresh(x))
      ensures Went(old(events), events, [Allot, Keep], ok) && Memory(ok)
      ensures ok ==> View() == old(View()).Copied(w, m)
    {
      ghost var l := View();
      ok := Alloc();
      if ok {
        assert View() == l;
        Join(w, m);
        WentBoth(old(events));
      } else {
        WentFirst(old(events));
      }
    }

    method Join(w: Where, m: Member)
      requires Valid() && Steady()
      modifies this`pool, this`events, astart, amiddle, aend, pool
      ensures Valid() && (forall x :: x in pool ==> x in old(pool) || fresh(x))
      ensures events == old(events) + [Keep] && Steady()
      ensures View() == old(View()).Copied(w, m)
    {
      Kept(pressure, events, allocs, Core());
      events := events + [Keep];
      match w {
        case Start => JoinStart(m);
        case Middle => JoinMiddle(m);
        case End => JoinEnd(m);
      }
    }

    method JoinStart(m: Member)
      requires Valid()
      modifies this`pool, astart, pool
      ensures Valid() && (forall x :: x in pool ==> x in old(pool) || fresh(x)) && pool >= old(pool)
      ensures Queues() == old(Queues()).With(Start, Grown(old(Queues()).At(Start), m)) && Core() == old(Core()) + 1
    {
      assert astart.tail != null ==> astart.tail in astart.chain;
      ghost var bp := Add(astart, m, amiddle, aend);
      pool := pool + {bp};
    }

    method JoinMiddle(m: Member)
      requires Valid()
      modifies this`pool, amiddle, pool
      ensures Valid() && (forall x :: x in pool ==> x in old(pool) || fresh(x)) && pool >= old(pool)
      ensures Queues() == old(Queues()).With(Middle, Grown(old(Queues()).At(Middle), m)) && Core() == old(Core()) + 1
    {
      assert amiddle.tail != null ==> amiddle.tail in amiddle.chain;
      ghost var bp := Add(amiddle, m, astart, aend);
      pool := pool + {bp};
    }

    method JoinEnd(m: Member)
      requires Valid()
      modifies this`pool, aend, pool
      ensures Valid() && (forall x :: x in pool ==> x in old(pool) || fresh(x)) && pool >= old(pool)
      ensures Queues() == old(Queues()).With(End, Grown(old(Queues()).At(End), m)) && Core() == old(Core()) + 1
    {
      assert aend.tail != null ==> aend.tail in aend.chain;
      ghost var bp := Add(aend, m, astart, amiddle);
      assert Within(astart) && Within(amiddle);
      pool := pool + {bp};
    }

    /** A member's symbols and the member itself go into a queue. */
    method Place(w: Where, m: Member) returns (ok: bool)
      requires Valid() && Steady() && Sound(View())
      modifies this, astart, amiddle, aend, pool
      ensures Valid() && (forall x :: x in pool ==> x in old(pool) || fresh(x)) && Memory(ok)
      ensures Went(old(events), events, old(View()).ScanNeeds(w, m) + [Allot, Keep], ok)
      ensures ok ==> View() == old(View()).Placed(w, m) && Sound(View())
    {
      ghost var needs := View().ScanNeeds(w, m);
      PlacedSound(View(), w, m);
      ok := ScanObj(w, m);
      ghost var mid := events;
      if ok {
        ok := ArCopy(w, m);
        WentThen(old(events), mid, events, needs, [Allot, Keep], ok);
      } else {
        WentShort(old(events), events, needs, [Allot, Keep]);
      }
    }

    /** `getdir`, and a queue for the tail if it begins here. */
    method Header(split: bool) returns (ok: bool)
      requires Valid() && Steady()
      modifies this`allocs, this`spills, this`events, astart, amiddle, aend
      ensures Valid() && Queues() == old(Queues())
      ensures Went(old(events), events, HeaderNeeds(split), ok) && Memory(ok)
    {
      if split {
        ok := AllocTwice();
      } else {
        ok := Alloc();
        WentOne(old(events), ok);
      }
    }

    /** A member goes to its queue, if to any. */
    method Enlist(g: Option<Where>, m: Member) returns (ok: bool)
      requires Valid() && Steady() && Sound(View())
      modifies this, astart, amiddle, aend, pool
      ensures Valid() && (forall x :: x in pool ==> x in old(pool) || fresh(x)) && Memory(ok)
      ensures Went(old(events), events, MemberNeeds(old(View()), g, m), ok)
      ensures ok ==> View() == old(View()).TakenIn(g, m)
    {
      if g.Some? {
        ok := Place(g.value, m);
      } else {
        ok := true;
        WentNothing(events);
      }
    }

    /** A member of the old archive, from its header to its place in a queue. */
    method TakeIn(g: Option<Where>, m: Member, split: bool) returns (ok: bool)
      requires Valid() && Steady() && Sound(View())
      modifies this, astart, amiddle, aend, pool
      ensures Valid() && (forall x :: x in pool ==> x in old(pool) || fresh(x)) && Memory(ok)
      ensures Went(old(events), events, TurnNeeds(old(View()), g, m, split), ok)
      ensures ok ==> View() == old(View()).TakenIn(g, m)
    {
      ghost var was, l := events, View();
      ok := Header(split);
      ghost var mid := events;
      if ok {
        assert View() == l;
        ok := Enlist(g, m);
        WentThen(was, mid, events, HeaderNeeds(split), MemberNeeds(l, g, m), ok);
      } else {
        WentShort(was, mid, HeaderNeeds(split), MemberNeeds(l, g, m));
      }
    }

    /** `install`: the archive is left alone if a text symbol is defined twice. */
    method Install(f: Layout) returns (archive: Option<seq<int>>)
      requires Valid() && Sound(View()) && Proper(f) && Fits(Queues().Members())
      modifies astart, amiddle, aend
      ensures archive == Installed(old(View()), f)
    {
      if allobj && dupfound {
        return None;
      }
      var out := WriteOut(f);
      return Some(out);
    }

    method WriteOut(f: Layout) returns (out: seq<int>)
      requires Valid() && Sound(View()) && Fits(Queues().Members()) && Proper(f) && !(allobj && dupfound)
      modifies astart, amiddle, aend
      ensures out == if allobj then Indexed(f, old(Queues()).Members()) else Plain(f, old(Queues()).Members())
    {
      out := f.magic;
      if allobj {
        out := WriteDirectory(out, f);
      }
      out := StreamQueues(out);
    }

    method WriteDirectory(out: seq<int>, f: Layout) returns (r: seq<int>)
      requires Valid() && Sound(View()) && allobj && !dupfound && Fits(Queues().Members()) && Proper(f)
               && out == f.magic
      ensures r + Images(Queues().Members().All()) == Indexed(f, Queues().Members())
    {
      ghost var l := View();
      InstallFacts(l);
      ghost var j := Base(symdefsize) + astart.size;
      ghost var k := j + amiddle.size;
      ListsAreListing(f, l, Base(symdefsize), j, k);
      IndexedIs(f, l.q.Members(), symdefsize, Entries(f, Listing(l.q.Members(), Base(symdefsize))));
      r := Rl(out, f, symdefsize, astart.size, amiddle.size, astart.sym, amiddle.sym, aend.sym, j, k);
    }

    method StreamQueues(out: seq<int>) returns (r: seq<int>)
      requires Valid()
      modifies astart, amiddle, aend
      ensures r == out + Images(old(Queues()).Members().All())
    {
      ghost var c := Queues().Members();
      StreamAll(out, c);
      r := astart.Stream(out);
      assert amiddle.Valid() && aend.Valid();
      r := amiddle.Stream(r);
      assert aend.Valid() && aend.Placed() == c.end;
      r := aend.Stream(r);
    }
  }
}
