/**
 A whole archive as `ar` writes it: the magic string, the symbol directory if every
 member is an object file, and the members of the three queues.
 */
module ArDirectory {
  import opened ArFormat

  /** `!<arch>` and a newline */
  const MAGIC: seq<int> := [33, 60, 97, 114, 99, 104, 62, 10]

  // ---------------------------------------------------------------- the directory's header

  function Digits(n: nat): (b: seq<int>)
    ensures |b| >= 1
  {
    if n < 10 then [48 + n] else Digits(n / 10) + [48 + n % 10]
  }

  /** The number that a run of digits spells. */
  function Spelled(b: seq<int>): int {
    if b == [] then 0 else 10 * Spelled(b[..|b| - 1]) + (b[|b| - 1] - 48)
  }

  /** Blank padding on the right, as `%-10ld` does. */
  function Padded(b: seq<int>, width: nat): (r: seq<int>)
    requires |b| <= width
    ensures |r| == width && r[..|b|] == b && forall k :: |b| <= k < width ==> r[k] == 32
  {
    b + seq(width - |b|, _ => 32)
  }

  predicate Digit(c: int) {
    48 <= c < 58
  }

  /** How many digits come first. */
  function Run(b: seq<int>): (n: nat)
    ensures n <= |b|
  {
    if b == [] || !Digit(b[0]) then 0 else 1 + Run(b[1..])
  }

  /** The number at the start of a field, as `strtol` reads it. */
  function ReadNumber(b: seq<int>): int {
    Spelled(b[..Run(b)])
  }

  lemma {:induction false} DigitsSpell(n: nat)
    ensures Spelled(Digits(n)) == n
    ensures forall k :: 0 <= k < |Digits(n)| ==> Digit(Digits(n)[k])
  {
    if n < 10 {
      assert [48 + n][..0] == [];
    } else {
      DigitsSpell(n / 10);
      assert Digits(n)[..|Digits(n)| - 1] == Digits(n / 10);
    }
  }

  lemma {:induction false} DigitsShort(n: nat, d: nat, bound: nat)
    requires d >= 1 && bound == Ten(d) && n < bound
    ensures |Digits(n)| <= d
    decreases d
  {
    if d > 1 && n >= 10 {
      DigitsShort(n / 10, d - 1, Ten(d - 1));
    }
  }

  function Ten(d: nat): nat {
    if d == 0 then 1 else 10 * Ten(d - 1)
  }

  lemma {:induction false} RunIs(b: seq<int>, n: nat)
    requires n <= |b| && (forall k :: 0 <= k < n ==> Digit(b[k])) && (n < |b| ==> !Digit(b[n]))
    ensures Run(b) == n
    decreases n
  {
    if n > 0 {
      RunIs(b[1..], n - 1);
    }
  }

  /** A size below ten to the tenth fits its field and is read back. */
  lemma SizeField(n: nat)
    requires n < 10_000_000_000
    ensures |Digits(n)| <= 10 && ReadNumber(Padded(Digits(n), 10)) == n
  {
    assert Ten(10) == 10_000_000_000 by {
      assert Ten(5) == 100_000;
    }
    DigitsShort(n, 10, 10_000_000_000);
    DigitsSpell(n);
    RunIs(Padded(Digits(n), 10), |Digits(n)|);
  }

  /** The header of the directory member: name, date, ids, mode, size and the closing mark. */
  function Header(date: seq<int>, len: nat): (h: seq<int>)
    requires |date| == 12 && len < 10_000_000_000
    ensures |h| == NHDR && ReadNumber(h[48..58]) == len
  {
    SizeField(len);
    var name := [95, 95, 46, 83, 89, 77, 68, 69, 70, 32, 32, 32, 32, 32, 32, 32];
    var ids := [48, 32, 32, 32, 32, 32, 48, 32, 32, 32, 32, 32, 54, 52, 52, 32, 32, 32, 32, 32];
    var size := Padded(Digits(len), 10);
    var h := name + date + ids + size + [96, 10];
    assert h[48..58] == size;
    h
  }

  /** The header has its length, and its size field reads back. */
  ghost predicate Proper(f: Layout) {
    && |f.magic| == NMAG && Coded(f)
    && forall n: nat :: n < 10_000_000_000 ==> |f.header(n)| == NHDR && ReadNumber(f.header(n)[48..58]) == n
  }

  /** The layout that `ar` uses at a given date. */
  function Dated(date: seq<int>): Layout
    requires |date| == 12
  {
    Layout(MAGIC, (n: nat) => if n < 10_000_000_000 then Header(date, n) else [], LittleEndian)
  }

  lemma DatedProper(date: seq<int>)
    requires |date| == 12
    ensures Proper(Dated(date))
  {
  }

  // ---------------------------------------------------------------- the archive

  function Even(n: nat): nat {
    n + n % 2
  }

  /** Members in the three queues, in the order they are written. */
  datatype Contents = Contents(start: seq<Member>, middle: seq<Member>, end: seq<Member>) {
    function All(): seq<Member> {
      start + middle + end
    }
  }

  /** The entries as written: queue by queue, the newest first. */
  function Listing(c: Contents, base: int): seq<Ref> {
    ListingAt(c, base, base + |Images(c.start)|, base + |Images(c.start)| + |Images(c.middle)|)
  }

  /** The same with the place of each queue given. */
  function ListingAt(c: Contents, start: int, middle: int, end: int): seq<Ref> {
    NewestFirst(Refs(c.start, start), Refs(c.middle, middle), Refs(c.end, end))
  }

  function NewestFirst(x: seq<Ref>, y: seq<Ref>, z: seq<Ref>): seq<Ref> {
    Rev(x) + Rev(y) + Rev(z)
  }

  lemma RefsAll(c: Contents, base: int, middle: int, end: int)
    requires middle == base + |Images(c.start)| && end == middle + |Images(c.middle)|
    ensures Refs(c.All(), base) == Refs(c.start, base) + Refs(c.middle, middle) + Refs(c.end, end)
  {
    RefsConcat(c.start + c.middle, c.end, base);
    RefsConcat(c.start, c.middle, base);
    ImagesConcat(c.start, c.middle);
  }

  lemma {:induction false} RevThree(f: Layout, x: seq<Ref>, y: seq<Ref>, z: seq<Ref>, r: Ref)
    requires Coded(f)
    ensures r in NewestFirst(x, y, z) <==> r in x + y + z
    ensures |Entries(f, NewestFirst(x, y, z))| == Room(x) + Room(y) + Room(z)
  {
    RevMembers(x, r);
    RevMembers(y, r);
    RevMembers(z, r);
    RoomRev(x);
    RoomRev(y);
    RoomRev(z);
    RoomConcat(Rev(x) + Rev(y), Rev(z));
    RoomConcat(Rev(x), Rev(y));
    RoomOfEntries(f, NewestFirst(x, y, z));
  }

  /** Listing order does not matter: the entries are those of all members in file order. */
  lemma ListingMembers(f: Layout, c: Contents, base: int, r: Ref)
    requires Coded(f)
    ensures r in Listing(c, base) <==> r in Refs(c.All(), base)
  {
    var middle := base + |Images(c.start)|;
    var end := middle + |Images(c.middle)|;
    RefsAll(c, base, middle, end);
    RevThree(f, Refs(c.start, base), Refs(c.middle, middle), Refs(c.end, end), r);
  }

  lemma ListingRoom(f: Layout, c: Contents, base: int)
    requires Coded(f)
    ensures |Entries(f, Listing(c, base))| == RoomOf(c)
  {
    ThreeRooms(f, c.start, c.middle, c.end, base, base + |Images(c.start)|,
      base + |Images(c.start)| + |Images(c.middle)|);
  }

  lemma ThreeRooms(f: Layout, s: seq<Member>, m: seq<Member>, e: seq<Member>, i: int, j: int, k: int)
    requires Coded(f)
    ensures |Entries(f, NewestFirst(Refs(s, i), Refs(m, j), Refs(e, k)))| == Room(Refs(s, 0)) + Room(Refs(m, 0))
            + Room(Refs(e, 0))
  {
    RevThree(f, Refs(s, i), Refs(m, j), Refs(e, k), Ref(0, [], 0));
    QueueRoom(s, i);
    QueueRoom(m, j);
    QueueRoom(e, k);
  }

  /** How many bytes the entries take; offsets do not change that. */
  function Room(rs: seq<Ref>): nat {
    if rs == [] then 0 else Room(rs[..|rs| - 1]) + (4 + (|rs[|rs| - 1].name| + 1) + 1)
  }

  lemma {:induction false} RoomConcat(s: seq<Ref>, t: seq<Ref>)
    ensures Room(s + t) == Room(s) + Room(t)
    decreases |t|
  {
    if t == [] {
      assert s + t == s;
    } else {
      assert (s + t)[..|s + t| - 1] == s + t[..|t| - 1];
      RoomConcat(s, t[..|t| - 1]);
    }
  }

  lemma {:induction false} RoomOfEntries(f: Layout, rs: seq<Ref>)
    requires Coded(f)
    ensures |Entries(f, rs)| == Room(rs)
  {
    if rs != [] {
      RoomOfEntries(f, rs[1..]);
      assert rs == [rs[0]] + rs[1..];
      RoomConcat([rs[0]], rs[1..]);
      assert [rs[0]][..0] == [];
    }
  }

  lemma {:induction false} RoomShift(rs: seq<Ref>, base: int)
    ensures Room(Shift(rs, base)) == Room(rs)
  {
    if rs != [] {
      RoomShift(rs[..|rs| - 1], base);
      assert Shift(rs, base)[..|rs| - 1] == Shift(rs[..|rs| - 1], base);
    }
  }

  lemma {:induction false} RoomRev(rs: seq<Ref>)
    ensures Room(Rev(rs)) == Room(rs)
  {
    if rs != [] {
      var r := rs[|rs| - 1];
      RoomRev(rs[..|rs| - 1]);
      RoomConcat([r], Rev(rs[..|rs| - 1]));
      assert [r][..0] == [];
    }
  }

  /** Where the directory's bytes end and the members begin. */
  function Base(room: nat): int {
    NMAG + NHDR + Even(room)
  }

  function Padding(room: nat): seq<int> {
    if room % 2 == 1 then [0] else []
  }

  /** The directory as a member of its own. */
  function Directory(f: Layout, room: nat, listing: seq<Ref>): seq<int> {
    f.header(Even(room)) + Entries(f, listing) + Padding(room)
  }

  function RoomOf(c: Contents): nat {
    Room(Refs(c.start, 0)) + Room(Refs(c.middle, 0)) + Room(Refs(c.end, 0))
  }

  /** The archive with its directory. */
  function Indexed(f: Layout, c: Contents): seq<int> {
    f.magic + Directory(f, RoomOf(c), Listing(c, Base(RoomOf(c)))) + Images(c.All())
  }

  /** The archive without a directory. */
  function Plain(f: Layout, c: Contents): seq<int> {
    f.magic + Images(c.All())
  }

  lemma QueueRoom(ms: seq<Member>, base: int)
    ensures Room(Refs(ms, base)) == Room(Refs(ms, 0))
  {
    RefsShift(ms, base);
    RoomShift(Refs(ms, 0), base);
  }

  // ---------------------------------------------------------------- the directory is right

  /** The archive stays below the reach of a signed 32-bit offset. */
  ghost predicate Fits(c: Contents) {
    AllFormed(c.All()) && Base(RoomOf(c)) + |Images(c.All())| < 0x8000_0000
  }

  /** At `offset` the archive holds the header of member `k`, and its body after that. */
  ghost predicate HeaderAt(archive: seq<int>, offset: int, m: Member) {
    0 <= offset && offset + |Image(m)| <= |archive| && archive[offset..offset + |Image(m)|] == Image(m)
  }

  /** The size in the directory's header is the number of bytes up to the first member. */
  lemma DirectorySize(f: Layout, c: Contents)
    requires Proper(f) && Fits(c)
    ensures var archive, base := Indexed(f, c), Base(RoomOf(c));
            && base <= |archive| && archive[base..] == Images(c.All())
            && ReadNumber(archive[8..68][48..58]) == base - 68
            && archive[68..base] == Entries(f, Listing(c, base)) + Padding(RoomOf(c))
  {
    var room, base := RoomOf(c), Base(RoomOf(c));
    var h, e, p, images := f.header(Even(room)), Entries(f, Listing(c, base)), Padding(room), Images(c.All());
    ListingRoom(f, c, base);
    Pieces(f.magic, h, e, p, images);
    assert Indexed(f, c) == f.magic + (h + e + p) + images;
  }

  lemma Pieces(m: seq<int>, h: seq<int>, e: seq<int>, p: seq<int>, z: seq<int>)
    requires |m| == 8 && |h| == 60
    ensures var all := m + (h + e + p) + z; var base := 68 + |e| + |p|;
            |all| == base + |z| && all[base..] == z && all[8..68] == h && all[68..base] == e + p
  {
  }

  lemma StorableRefs(f: Layout, c: Contents, base: int, r: Ref)
    requires r in Listing(c, base) && 0 <= base && base + |Images(c.All())| < 0x8000_0000 && AllFormed(c.All())
             && Coded(f)
    ensures Storable(r) && exists k: nat :: Defines(c.All(), base, k, r)
  {
    var all := c.All();
    ListingMembers(f, c, base, r);
    RefsExact(all, base, r);
    var k: nat :| Defines(all, base, k, r);
    ImageAt(all, k);
    assert Formed(all[k]);
  }

  lemma DirectoryReads(f: Layout, c: Contents, base: int)
    requires Coded(f) && 0 <= base && base + |Images(c.All())| < 0x8000_0000 && AllFormed(c.All())
    ensures ReadDirectory(Entries(f, Listing(c, base)) + Padding(RoomOf(c))) == Listing(c, base)
  {
    var listing := Listing(c, base);
    forall i | 0 <= i < |listing|
      ensures Storable(listing[i])
    {
      StorableRefs(f, c, base, listing[i]);
    }
    ReadEntries(f, listing, Padding(RoomOf(c)));
  }

  lemma Window(s: seq<int>, base: nat, at: nat, n: nat)
    requires base + at + n <= |s|
    ensures s[base..][at..at + n] == s[base + at..base + at + n]
  {
  }

  lemma HeaderFound(archive: seq<int>, ms: seq<Member>, base: nat, k: nat, r: Ref)
    requires base <= |archive| && archive[base..] == Images(ms) && Defines(ms, base, k, r)
    ensures HeaderAt(archive, r.offset, ms[k])
  {
    ImageAt(ms, k);
    var at, n := |Images(ms[..k])|, |Image(ms[k])|;
    Window(archive, base, at, n);
  }

  /**
   What a reader of the archive finds: an entry for every text and data symbol of every
   member, and none else, each leading to the header of the member that defines it.
   */
  ghost predicate Locates(archive: seq<int>, base: int, ms: seq<Member>, r: Ref) {
    && 68 <= base <= |archive|
    && (r in ReadDirectory(archive[68..base]) <==> exists k: nat :: Defines(ms, base, k, r))
    && (forall k: nat :: Defines(ms, base, k, r) ==> HeaderAt(archive, r.offset, ms[k]))
  }

  /** Every directory that `ar` writes is right, for every symbol. */
  lemma DirectoryPoints(f: Layout, c: Contents, r: Ref)
    requires Proper(f) && Fits(c)
    ensures Locates(Indexed(f, c), Base(RoomOf(c)), c.All(), r)
  {
    var archive, base, all := Indexed(f, c), Base(RoomOf(c)), c.All();
    DirectorySize(f, c);
    DirectoryReads(f, c, base);
    ListingMembers(f, c, base, r);
    RefsExact(all, base, r);
    forall k: nat | Defines(all, base, k, r)
      ensures HeaderAt(archive, r.offset, all[k])
    {
      HeaderFound(archive, all, base, k, r);
    }
  }
}
