/**
 The archive format of `ar`: members, the symbol directory and its offsets.
 */
module ArFormat {
  const NHDR := 60
  const NMAG := 8

  /** A symbol that an object file defines; `kind` is the type letter. */
  datatype Symbol = Symbol(kind: int, name: seq<int>)

  /**
   An archive member: its 60-byte header, the bytes written after it (padded to an even
   number), and what the object-file library reports of it: the object type (negative if
   it is none), whether its symbols could be read, and the symbols.
   */
  datatype Member = Member(name: string, hdr: seq<int>, body: seq<int>, obj: int, readable: bool, syms: seq<Symbol>)

  predicate Formed(m: Member) {
    |m.hdr| == NHDR && |m.body| % 2 == 0 && forall k :: 0 <= k < |m.syms| ==> 0 !in m.syms[k].name
  }

  predicate AllFormed(ms: seq<Member>) {
    forall k :: 0 <= k < |ms| ==> Formed(ms[k])
  }

  /** What `arwrite` writes. */
  function Image(m: Member): seq<int> {
    m.hdr + m.body
  }

  function Images(ms: seq<Member>): seq<int> {
    if ms == [] then [] else Images(ms[..|ms| - 1]) + Image(ms[|ms| - 1])
  }

  lemma ImagesSnoc(ms: seq<Member>, m: Member)
    ensures Images(ms + [m]) == Images(ms) + Image(m)
  {
    assert (ms + [m])[..|ms|] == ms;
  }

  lemma {:induction false} ImagesConcat(s: seq<Member>, t: seq<Member>)
    ensures Images(s + t) == Images(s) + Images(t)
    decreases |t|
  {
    if t == [] {
      assert s + t == s;
    } else {
      assert s + t == (s + t[..|t| - 1]) + [t[|t| - 1]];
      ImagesSnoc(s + t[..|t| - 1], t[|t| - 1]);
      ImagesConcat(s, t[..|t| - 1]);
    }
  }

  /** The image of member `k` sits where the images of those before it end. */
  lemma ImageAt(ms: seq<Member>, k: nat)
    requires k < |ms|
    ensures var at := |Images(ms[..k])|;
            at + |Image(ms[k])| <= |Images(ms)| && Images(ms)[at..at + |Image(ms[k])|] == Image(ms[k])
  {
    var x, y, z := Images(ms[..k]), Image(ms[k]), Images(ms[k + 1..]);
    assert ms == (ms[..k] + [ms[k]]) + ms[k + 1..];
    ImagesConcat(ms[..k] + [ms[k]], ms[k + 1..]);
    ImagesSnoc(ms[..k], ms[k]);
    assert (x + y + z)[|x|..|x| + |y|] == y;
  }

  // ---------------------------------------------------------------- symbol references

  /** A directory entry: the symbol, and an offset. */
  datatype Ref = Ref(kind: int, name: seq<int>, offset: int)

  /** Only text and data symbols are listed. */
  predicate Listed(s: Symbol) {
    s.kind == 84 || s.kind == 68
  }

  /** The entries for symbols of one member whose header is at `offset`. */
  function RefsOf(syms: seq<Symbol>, offset: int): seq<Ref> {
    if syms == [] then []
    else
      var s := syms[|syms| - 1];
      RefsOf(syms[..|syms| - 1], offset) + if Listed(s) then [Ref(s.kind, s.name, offset)] else []
  }

  /** The entries for members that follow each other from `base` on. */
  function Refs(ms: seq<Member>, base: int): seq<Ref> {
    if ms == [] then []
    else
      var init := ms[..|ms| - 1];
      Refs(init, base) + RefsOf(ms[|ms| - 1].syms, base + |Images(init)|)
  }

  function Rev(s: seq<Ref>): (r: seq<Ref>)
    ensures |r| == |s|
  {
    if s == [] then [] else [s[|s| - 1]] + Rev(s[..|s| - 1])
  }

  lemma {:induction false} RevConcat(s: seq<Ref>, t: seq<Ref>)
    ensures Rev(s + t) == Rev(t) + Rev(s)
    decreases |t|
  {
    if t == [] {
      assert s + t == s;
    } else {
      assert (s + t)[..|s + t| - 1] == s + t[..|t| - 1];
      RevConcat(s, t[..|t| - 1]);
    }
  }

  lemma {:induction false} RevMembers(s: seq<Ref>, r: Ref)
    ensures r in Rev(s) <==> r in s
    decreases |s|
  {
    if s != [] {
      assert s == s[..|s| - 1] + [s[|s| - 1]];
      RevMembers(s[..|s| - 1], r);
    }
  }

  /** Offsets counted from the start of the archive. */
  function Shift(s: seq<Ref>, base: int): (r: seq<Ref>)
    ensures |r| == |s|
    ensures forall k :: 0 <= k < |s| ==> r[k] == s[k].(offset := s[k].offset + base)
  {
    if s == [] then [] else Shift(s[..|s| - 1], base) + [s[|s| - 1].(offset := s[|s| - 1].offset + base)]
  }

  lemma ShiftSnoc(s: seq<Ref>, r: Ref, base: int)
    ensures Shift(s + [r], base) == Shift(s, base) + [r.(offset := r.offset + base)]
  {
    assert (s + [r])[..|s|] == s;
  }

  lemma ShiftConcat(s: seq<Ref>, t: seq<Ref>, base: int)
    ensures Shift(s + t, base) == Shift(s, base) + Shift(t, base)
  {
  }

  lemma {:induction false} RefsOfShift(syms: seq<Symbol>, offset: int, base: int)
    ensures RefsOf(syms, offset + base) == Shift(RefsOf(syms, offset), base)
  {
    if syms != [] {
      var init, s := syms[..|syms| - 1], syms[|syms| - 1];
      RefsOfShift(init, offset, base);
      if Listed(s) {
        ShiftSnoc(RefsOf(init, offset), Ref(s.kind, s.name, offset), base);
      } else {
        assert RefsOf(syms, offset) == RefsOf(init, offset);
        assert RefsOf(syms, offset + base) == RefsOf(init, offset + base);
      }
    }
  }

  lemma {:induction false} RefsShift(ms: seq<Member>, base: int)
    ensures Refs(ms, base) == Shift(Refs(ms, 0), base)
  {
    if ms != [] {
      var init := ms[..|ms| - 1];
      RefsShift(init, base);
      RefsOfShift(ms[|ms| - 1].syms, |Images(init)|, base);
      ShiftConcat(Refs(init, 0), RefsOf(ms[|ms| - 1].syms, |Images(init)|), base);
    }
  }

  lemma {:induction false} RefsConcat(s: seq<Member>, t: seq<Member>, base: int)
    ensures Refs(s + t, base) == Refs(s, base) + Refs(t, base + |Images(s)|)
    decreases |t|
  {
    if t == [] {
      assert s + t == s;
    } else {
      var init := t[..|t| - 1];
      assert (s + t)[..|s + t| - 1] == s + init;
      RefsConcat(s, init, base);
      ImagesConcat(s, init);
    }
  }

  /** The entries of one member are its text and data symbols, all at its header. */
  lemma {:induction false} RefsOfExact(syms: seq<Symbol>, offset: int, r: Ref)
    ensures r in RefsOf(syms, offset) <==>
            r.offset == offset && Symbol(r.kind, r.name) in syms && (r.kind == 84 || r.kind == 68)
  {
    if syms != [] {
      var init, s := syms[..|syms| - 1], syms[|syms| - 1];
      assert syms == init + [s];
      RefsOfExact(init, offset, r);
      assert Symbol(r.kind, r.name) == s <==> r.kind == s.kind && r.name == s.name;
    }
  }

  /** `r` names a text or data symbol of member `k`, at that member's header. */
  ghost predicate Defines(ms: seq<Member>, base: int, k: nat, r: Ref) {
    && k < |ms| && r.offset == base + |Images(ms[..k])|
    && Symbol(r.kind, r.name) in ms[k].syms && (r.kind == 84 || r.kind == 68)
  }

  /** The entries are exactly the text and data symbols, each at the header of its member. */
  lemma {:induction false} RefsExact(ms: seq<Member>, base: int, r: Ref)
    ensures r in Refs(ms, base) <==> exists k: nat :: Defines(ms, base, k, r)
  {
    if ms != [] {
      var n := |ms| - 1;
      var init := ms[..n];
      RefsExact(init, base, r);
      RefsOfExact(ms[n].syms, base + |Images(init)|, r);
      if r in Refs(init, base) {
        var k: nat :| Defines(init, base, k, r);
        assert init[..k] == ms[..k];
        assert Defines(ms, base, k, r);
      } else if r in Refs(ms, base) {
        assert Defines(ms, base, n, r);
      }
      forall k: nat | Defines(ms, base, k, r)
        ensures r in Refs(ms, base)
      {
        if k < n {
          assert init[..k] == ms[..k];
          assert Defines(init, base, k, r);
        }
      }
    }
  }

  // ---------------------------------------------------------------- the directory's bytes

  /** The fixed parts of an archive: magic string, header for a directory of some size, bytes of an offset. */
  datatype Layout = Layout(magic: seq<int>, header: nat -> seq<int>, word: int -> seq<int>)

  /** Offsets take four bytes and can be read back. */
  ghost predicate Coded(f: Layout) {
    forall n: int :: |f.word(n)| == 4 && (0 <= n < 0x1_0000_0000 ==> Word(f.word(n)) == n)
  }

  /** The bytes of one entry: type, offset, name, zero. */
  function Entry(f: Layout, r: Ref): seq<int> {
    [r.kind] + f.word(r.offset) + r.name + [0]
  }

  function Entries(f: Layout, rs: seq<Ref>): seq<int> {
    if rs == [] then [] else Entry(f, rs[0]) + Entries(f, rs[1..])
  }

  lemma {:induction false} EntriesConcat(f: Layout, s: seq<Ref>, t: seq<Ref>)
    ensures Entries(f, s + t) == Entries(f, s) + Entries(f, t)
  {
    if s == [] {
      assert s + t == t;
    } else {
      assert (s + t)[1..] == s[1..] + t;
      EntriesConcat(f, s[1..], t);
      assert Entries(f, s + t) == Entry(f, s[0]) + (Entries(f, s[1..]) + Entries(f, t));
    }
  }

  function Word(b: seq<int>): int
    requires |b| >= 4
  {
    b[0] + 0x100 * b[1] + 0x10000 * b[2] + 0x1000000 * b[3]
  }

  /** The low byte first. */
  function LittleEndian(n: int): (b: seq<int>)
    ensures |b| == 4
    ensures 0 <= n < 0x1_0000_0000 ==> Word(b) == n
  {
    var n1 := n / 0x100;
    var n2 := n1 / 0x100;
    var n3 := n2 / 0x100;
    [n % 256, n1 % 256, n2 % 256, n3 % 256]
  }

  /** The name up to the zero that ends it. */
  function NameLength(b: seq<int>): (n: nat)
    ensures n <= |b| && 0 !in b[..n] && (n < |b| ==> b[n] == 0)
  {
    if b == [] || b[0] == 0 then 0
    else
      var n := 1 + NameLength(b[1..]);
      assert b[..n] == [b[0]] + b[1..][..n - 1];
      n
  }

  lemma {:induction false} NameLengthIs(name: seq<int>, rest: seq<int>)
    requires 0 !in name
    ensures NameLength(name + [0] + rest) == |name|
  {
    if name != [] {
      assert (name + [0] + rest)[1..] == name[1..] + [0] + rest;
      NameLengthIs(name[1..], rest);
    }
  }

  /** Reads a directory back; a remainder too short for an entry is padding. */
  function ReadDirectory(b: seq<int>): seq<Ref> {
    if |b| < 6 then []
    else
      var n := NameLength(b[5..]);
      var next := if 5 + n < |b| then 5 + n + 1 else |b|;
      [Ref(b[0], b[5..5 + n], Word(b[1..5]))] + ReadDirectory(b[next..])
  }

  predicate Storable(r: Ref) {
    0 <= r.offset < 0x1_0000_0000 && 0 !in r.name
  }

  lemma ReadEntry(f: Layout, r: Ref, rest: seq<int>)
    requires Storable(r) && Coded(f)
    ensures ReadDirectory(Entry(f, r) + rest) == [r] + ReadDirectory(rest)
  {
    var b := Entry(f, r) + rest;
    assert b[5..] == r.name + [0] + rest;
    NameLengthIs(r.name, rest);
    assert b[5..5 + |r.name|] == r.name;
    assert b[1..5] == f.word(r.offset);
    assert b[|Entry(f, r)|..] == rest;
  }

  lemma Regroup(rs: seq<Ref>, r: Ref, tail: seq<Ref>, more: seq<Ref>)
    requires rs != [] && r == rs[0] && tail == rs[1..]
    ensures [r] + (tail + more) == rs + more
  {
  }

  lemma {:induction false} ReadEntries(f: Layout, rs: seq<Ref>, rest: seq<int>)
    requires Coded(f) && forall k :: 0 <= k < |rs| ==> Storable(rs[k])
    ensures ReadDirectory(Entries(f, rs) + rest) == rs + ReadDirectory(rest)
  {
    if rs == [] {
      assert Entries(f, rs) + rest == rest;
    } else {
      var r, tail := rs[0], rs[1..];
      var b := Entries(f, tail) + rest;
      assert Entries(f, rs) + rest == Entry(f, r) + b;
      ReadEntries(f, tail, rest);
      ReadEntry(f, r, b);
      Regroup(rs, r, tail, ReadDirectory(rest));
    }
  }
}
