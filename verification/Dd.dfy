/**
 `dd`: conversion between newline-ended lines and fixed-length records, through an
 output buffer of any size.
 */
module Dd {
  const SPACE := 32
  const NEWLINE := 10

  function Spaces(n: nat): (r: seq<int>)
    ensures |r| == n && forall k :: 0 <= k < n ==> r[k] == SPACE
  {
    seq(n, _ => SPACE)
  }

  // ---------------------------------------------------------------- what the conversions emit

  /** `block`: what one character adds to the output, given the column. */
  function BlockEmits(cbs: nat, cbc: nat, c: int): seq<int> {
    if cbs == 0 then [c]
    else if c == NEWLINE then Spaces(if cbc < cbs then cbs - cbc else 0)
    else if cbc + 1 <= cbs then [c] else []
  }

  function BlockColumn(cbs: nat, cbc: nat, c: int): nat {
    if cbs == 0 then cbc else if c == NEWLINE then 0 else cbc + 1
  }

  function Blocked(cbs: nat, cbc: nat, text: seq<int>): seq<int>
    decreases |text|
  {
    if text == [] then []
    else BlockEmits(cbs, cbc, text[0]) + Blocked(cbs, BlockColumn(cbs, cbc, text[0]), text[1..])
  }

  /** `unblock`: spaces are held back until something follows them in the record. */
  function UnblockEmits(cbs: nat, cbc: nat, nspace: nat, c: int): seq<int> {
    if cbs == 0 then [c]
    else (if c == SPACE then [] else Spaces(nspace) + [c]) + if cbc + 1 >= cbs then [NEWLINE] else []
  }

  function UnblockColumn(cbs: nat, cbc: nat): nat {
    if cbs == 0 then cbc else if cbc + 1 >= cbs then 0 else cbc + 1
  }

  function UnblockHeld(cbs: nat, cbc: nat, nspace: nat, c: int): nat {
    if cbs == 0 then nspace else if cbc + 1 >= cbs then 0 else if c == SPACE then nspace + 1 else 0
  }

  function Unblocked(cbs: nat, cbc: nat, nspace: nat, text: seq<int>): seq<int>
    decreases |text|
  {
    if text == [] then []
    else UnblockEmits(cbs, cbc, nspace, text[0])
         + Unblocked(cbs, UnblockColumn(cbs, cbc), UnblockHeld(cbs, cbc, nspace, text[0]), text[1..])
  }

  /** Without a record length `block` copies. */
  lemma {:induction false} BlockedPlain(cbc: nat, text: seq<int>)
    ensures Blocked(0, cbc, text) == text
    decreases |text|
  {
    if text != [] {
      BlockedPlain(cbc, text[1..]);
    }
  }

  /** So does `unblock`. */
  lemma {:induction false} UnblockedPlain(cbc: nat, nspace: nat, text: seq<int>)
    ensures Unblocked(0, cbc, nspace, text) == text
    decreases |text|
  {
    if text != [] {
      UnblockedPlain(cbc, nspace, text[1..]);
    }
  }

  // ---------------------------------------------------------------- lines and records

  /** Lines of text, each ended by a newline. */
  function Text(lines: seq<seq<int>>): seq<int> {
    if lines == [] then [] else lines[0] + [NEWLINE] + Text(lines[1..])
  }

  predicate Lines(lines: seq<seq<int>>) {
    forall k :: 0 <= k < |lines| ==> NEWLINE !in lines[k]
  }

  /** The record of a line: cut or padded to `cbs`. */
  function Record(cbs: nat, line: seq<int>): (r: seq<int>)
    ensures |r| == cbs
  {
    if |line| >= cbs then line[..cbs] else line + Spaces(cbs - |line|)
  }

  function Records(cbs: nat, lines: seq<seq<int>>): seq<int> {
    if lines == [] then [] else Record(cbs, lines[0]) + Records(cbs, lines[1..])
  }

  /** Without trailing spaces. */
  function Trimmed(line: seq<int>): (r: seq<int>)
    ensures |r| <= |line| && r == line[..|r|] && (r != [] ==> r[|r| - 1] != SPACE)
    ensures forall k :: |r| <= k < |line| ==> line[k] == SPACE
  {
    if line != [] && line[|line| - 1] == SPACE then Trimmed(line[..|line| - 1]) else line
  }

  /** What is left of a line after both conversions. */
  function Survives(cbs: nat, line: seq<int>): seq<int> {
    Trimmed(if |line| >= cbs then line[..cbs] else line)
  }

  function AllSurvive(cbs: nat, lines: seq<seq<int>>): (r: seq<seq<int>>)
    ensures |r| == |lines| && forall k :: 0 <= k < |lines| ==> r[k] == Survives(cbs, lines[k])
  {
    seq(|lines|, k requires 0 <= k < |lines| => Survives(cbs, lines[k]))
  }

  // ---------------------------------------------------------------- block makes records

  lemma BlockedCons(cbs: nat, cbc: nat, c: int, rest: seq<int>)
    ensures Blocked(cbs, cbc, [c] + rest) == BlockEmits(cbs, cbc, c) + Blocked(cbs, BlockColumn(cbs, cbc, c), rest)
  {
    assert ([c] + rest)[1..] == rest;
  }

  lemma TailCons(cbs: nat, cbc: nat, line: seq<int>)
    requires cbs > 0 && line != [] && line[0] != NEWLINE
    ensures BlockEmits(cbs, cbc, line[0]) + Tail(cbs, cbc + 1, line[1..]) == Tail(cbs, cbc, line)
  {
  }

  lemma {:induction false} BlockedLine(cbs: nat, cbc: nat, line: seq<int>, rest: seq<int>)
    requires cbs > 0 && NEWLINE !in line
    ensures Blocked(cbs, cbc, line + [NEWLINE] + rest) == Tail(cbs, cbc, line) + Blocked(cbs, 0, rest)
    decreases |line|
  {
    if line == [] {
      assert line + [NEWLINE] + rest == [NEWLINE] + rest;
      BlockedCons(cbs, cbc, NEWLINE, rest);
      assert BlockEmits(cbs, cbc, NEWLINE) == Tail(cbs, cbc, line);
    } else {
      var c, more := line[0], line[1..] + [NEWLINE] + rest;
      assert line + [NEWLINE] + rest == [c] + more;
      BlockedCons(cbs, cbc, c, more);
      BlockedLine(cbs, cbc + 1, line[1..], rest);
      TailCons(cbs, cbc, line);
      Regroup(BlockEmits(cbs, cbc, c), Tail(cbs, cbc + 1, line[1..]), Blocked(cbs, 0, rest));
    }
  }

  lemma Regroup(x: seq<int>, y: seq<int>, z: seq<int>)
    ensures x + (y + z) == (x + y) + z
  {
  }

  /** The rest of a record, from column `cbc`. */
  function Tail(cbs: nat, cbc: nat, line: seq<int>): seq<int> {
    if cbc >= cbs then [] else Record(cbs - cbc, line)
  }

  /** `block` turns lines into records. */
  lemma {:induction false} BlockedText(cbs: nat, lines: seq<seq<int>>)
    requires cbs > 0 && Lines(lines)
    ensures Blocked(cbs, 0, Text(lines)) == Records(cbs, lines)
  {
    if lines != [] {
      BlockedLine(cbs, 0, lines[0], Text(lines[1..]));
      BlockedText(cbs, lines[1..]);
    }
  }

  // ---------------------------------------------------------------- unblock makes lines

  lemma UnblockedCons(cbs: nat, cbc: nat, nspace: nat, c: int, rest: seq<int>)
    ensures Unblocked(cbs, cbc, nspace, [c] + rest) ==
            UnblockEmits(cbs, cbc, nspace, c) +
            Unblocked(cbs, UnblockColumn(cbs, cbc), UnblockHeld(cbs, cbc, nspace, c), rest)
  {
    assert ([c] + rest)[1..] == rest;
  }

  /** What a record gives when `nspace` spaces are held back before it. */
  function Line(nspace: nat, record: seq<int>): seq<int> {
    (if Trimmed(record) == [] then [] else Spaces(nspace) + Trimmed(record)) + [NEWLINE]
  }

  lemma LineHeld(nspace: nat, record: seq<int>)
    requires record != [] && record[0] == SPACE
    ensures Line(nspace, record) == Line(nspace + 1, record[1..])
  {
    TrimmedCons(record);
    var t := Trimmed(record[1..]);
    assert Spaces(nspace + 1) + t == Spaces(nspace) + ([SPACE] + t);
  }

  lemma LineShown(nspace: nat, record: seq<int>)
    requires record != [] && record[0] != SPACE
    ensures Line(nspace, record) == (Spaces(nspace) + [record[0]]) + Line(0, record[1..])
  {
    TrimmedCons(record);
    var t := Trimmed(record[1..]);
    assert Line(0, record[1..]) == t + [NEWLINE];
    assert Line(nspace, record) == Spaces(nspace) + ([record[0]] + t) + [NEWLINE];
  }

  lemma LineCons(cbs: nat, cbc: nat, nspace: nat, record: seq<int>)
    requires cbc + 1 < cbs && |record| == cbs - cbc
    ensures UnblockEmits(cbs, cbc, nspace, record[0]) + Line(UnblockHeld(cbs, cbc, nspace, record[0]), record[1..]) ==
            Line(nspace, record)
  {
    if record[0] == SPACE {
      LineHeld(nspace, record);
    } else {
      LineShown(nspace, record);
    }
  }

  lemma LineLast(cbs: nat, nspace: nat, c: int)
    requires cbs > 0
    ensures UnblockEmits(cbs, cbs - 1, nspace, c) == Line(nspace, [c])
  {
    assert [c][..0] == [];
  }

  lemma Detach(s: seq<int>, t: seq<int>)
    requires s != []
    ensures s + t == [s[0]] + (s[1..] + t)
  {
  }

  /** The rest of a record from column `cbc` on. */
  lemma {:induction false} UnblockedRecord(cbs: nat, cbc: nat, nspace: nat, record: seq<int>, rest: seq<int>)
    requires cbc < cbs && |record| == cbs - cbc
    ensures Unblocked(cbs, cbc, nspace, record + rest) == Line(nspace, record) + Unblocked(cbs, 0, 0, rest)
    decreases |record|
  {
    var c, more := record[0], record[1..] + rest;
    Detach(record, rest);
    UnblockedCons(cbs, cbc, nspace, c, more);
    if cbc + 1 < cbs {
      var held := UnblockHeld(cbs, cbc, nspace, c);
      UnblockedRecord(cbs, cbc + 1, held, record[1..], rest);
      LineCons(cbs, cbc, nspace, record);
      Regroup(UnblockEmits(cbs, cbc, nspace, c), Line(held, record[1..]), Unblocked(cbs, 0, 0, rest));
    } else {
      assert record == [c] && more == rest;
      LineLast(cbs, nspace, c);
    }
  }

  lemma {:induction false} TrimmedCons(line: seq<int>)
    requires line != []
    ensures Trimmed(line) == if Trimmed(line[1..]) == [] && line[0] == SPACE then [] else [line[0]] + Trimmed(line[1..])
  {
    if |line| > 1 && line[|line| - 1] == SPACE {
      TrimmedCons(line[..|line| - 1]);
      assert line[..|line| - 1][1..] == line[1..][..|line| - 2];
    } else if |line| > 1 {
      assert line == [line[0]] + line[1..];
    }
  }

  /** Padding is trimmed away again. */
  lemma {:induction false} TrimmedPadding(line: seq<int>, n: nat)
    ensures Trimmed(line + Spaces(n)) == Trimmed(line)
    decreases n
  {
    if n == 0 {
      assert line + Spaces(0) == line;
    } else {
      var s := line + Spaces(n);
      assert s[..|s| - 1] == line + Spaces(n - 1);
      TrimmedPadding(line, n - 1);
    }
  }

  lemma LineOfRecord(cbs: nat, line: seq<int>)
    requires cbs > 0
    ensures Line(0, Record(cbs, line)) == Survives(cbs, line) + [NEWLINE]
  {
    if |line| < cbs {
      TrimmedPadding(line, cbs - |line|);
    }
    assert Spaces(0) == [];
  }

  lemma {:induction false} UnblockedRecords(cbs: nat, lines: seq<seq<int>>)
    requires cbs > 0
    ensures Unblocked(cbs, 0, 0, Records(cbs, lines)) == Text(AllSurvive(cbs, lines))
  {
    if lines != [] {
      var line, rest := lines[0], lines[1..];
      UnblockedRecord(cbs, 0, 0, Record(cbs, line), Records(cbs, rest));
      UnblockedRecords(cbs, rest);
      LineOfRecord(cbs, line);
      assert AllSurvive(cbs, lines)[1..] == AllSurvive(cbs, rest);
    }
  }

  /** Both conversions, for all lines: each is cut at `cbs` and loses its trailing spaces. */
  lemma BlockThenUnblock(cbs: nat, lines: seq<seq<int>>)
    requires cbs > 0 && Lines(lines)
    ensures Unblocked(cbs, 0, 0, Blocked(cbs, 0, Text(lines))) == Text(AllSurvive(cbs, lines))
  {
    BlockedText(cbs, lines);
    UnblockedRecords(cbs, lines);
  }

  // ---------------------------------------------------------------- when nothing is lost

  /** A line that neither conversion changes. */
  predicate Plain(cbs: nat, line: seq<int>) {
    |line| <= cbs && (line != [] ==> line[|line| - 1] != SPACE)
  }

  lemma SurvivesIff(cbs: nat, line: seq<int>)
    ensures Survives(cbs, line) == line <==> Plain(cbs, line)
  {
    if |line| <= cbs {
      assert |line| == cbs ==> line[..cbs] == line;
      if line != [] && line[|line| - 1] == SPACE {
        assert |Trimmed(line)| <= |line| - 1;
      }
    }
  }

  /** Lines without newlines are determined by their text. */
  lemma {:induction false} TextInjective(a: seq<seq<int>>, b: seq<seq<int>>)
    requires Lines(a) && Lines(b) && |a| == |b| && Text(a) == Text(b)
    ensures a == b
  {
    if a != [] {
      FirstLine(a[0], b[0], Text(a[1..]), Text(b[1..]));
      TextInjective(a[1..], b[1..]);
      assert a == [a[0]] + a[1..] && b == [b[0]] + b[1..];
    }
  }

  /** Where the first line ends. */
  function EndOfLine(text: seq<int>): (n: nat)
    ensures n <= |text|
  {
    if text == [] || text[0] == NEWLINE then 0 else 1 + EndOfLine(text[1..])
  }

  lemma {:induction false} EndOfLineIs(line: seq<int>, rest: seq<int>)
    requires NEWLINE !in line
    ensures EndOfLine(line + [NEWLINE] + rest) == |line|
  {
    if line != [] {
      assert (line + [NEWLINE] + rest)[1..] == line[1..] + [NEWLINE] + rest;
      EndOfLineIs(line[1..], rest);
    }
  }

  lemma FirstLine(x: seq<int>, y: seq<int>, s: seq<int>, t: seq<int>)
    requires NEWLINE !in x && NEWLINE !in y && x + [NEWLINE] + s == y + [NEWLINE] + t
    ensures x == y && s == t
  {
    EndOfLineIs(x, s);
    EndOfLineIs(y, t);
    var u, n := x + [NEWLINE] + s, |x|;
    assert x == u[..n] && s == u[n + 1..];
    assert y == u[..n] && t == u[n + 1..];
  }

  /** `unblock` undoes `block` exactly when no line is too long or ends in a space. */
  lemma RoundTripIff(cbs: nat, lines: seq<seq<int>>)
    requires cbs > 0 && Lines(lines)
    ensures Unblocked(cbs, 0, 0, Blocked(cbs, 0, Text(lines))) == Text(lines) <==>
            forall k :: 0 <= k < |lines| ==> Plain(cbs, lines[k])
  {
    BlockThenUnblock(cbs, lines);
    var r := AllSurvive(cbs, lines);
    assert Lines(r);
    if Text(r) == Text(lines) {
      TextInjective(r, lines);
    }
    forall k | 0 <= k < |lines|
      ensures r[k] == lines[k] <==> Plain(cbs, lines[k])
    {
      SurvivesIff(cbs, lines[k]);
    }
    if forall k :: 0 <= k < |lines| ==> Plain(cbs, lines[k]) {
      assert r == lines;
    }
  }

  // ---------------------------------------------------------------- the program

  /** The bytes of some blocks, one after the other. */
  function Joined(blocks: seq<seq<int>>): seq<int> {
    if blocks == [] then [] else Joined(blocks[..|blocks| - 1]) + blocks[|blocks| - 1]
  }

  lemma JoinedSnoc(blocks: seq<seq<int>>, block: seq<int>)
    ensures Joined(blocks + [block]) == Joined(blocks) + block
  {
    assert (blocks + [block])[..|blocks|] == blocks;
  }

  /** Blocks of `obs` bytes, all but the last, which is not empty. */
  predicate InBlocks(blocks: seq<seq<int>>, obs: nat) {
    forall k :: 0 <= k < |blocks| ==> 1 <= |blocks[k]| <= obs && (k < |blocks| - 1 ==> |blocks[k]| == obs)
  }

  class Dd {
    const cbs: nat
    const obs: nat
    var cbc: nat
    var nspace: nat
    const obuf: array<int>
    var obc: nat
    /** What each call of `write` was given. */
    var blocks: seq<seq<int>>

    constructor (cbs: nat, obs: nat)
      requires obs > 0
      ensures Valid() && Emitted() == [] && cbc == 0 && nspace == 0 && this.cbs == cbs && this.obs == obs && fresh(obuf)
    {
      this.cbs, this.obs, cbc, nspace, obc, blocks := cbs, obs, 0, 0, 0, [];
      obuf := new int[obs];
    }

    ghost predicate Valid()
      reads this
    {
      obuf.Length == obs && obc < obs && forall k :: 0 <= k < |blocks| ==> |blocks[k]| == obs
    }

    /** What has been written together with what waits in the buffer. */
    ghost function Emitted(): seq<int>
      requires Valid()
      reads this, obuf
    {
      Joined(blocks) + obuf[..obc]
    }

    /** `flsh` */
    method Flush()
      requires obuf.Length == obs && obc <= obs
      modifies this`obc, this`blocks
      ensures obc == 0 && blocks == if old(obc) == 0 then old(blocks) else old(blocks) + [obuf[..old(obc)]]
      ensures Joined(blocks) == Joined(old(blocks)) + obuf[..old(obc)]
    {
      JoinedSnoc(blocks, obuf[..obc]);
      if obc != 0 {
        blocks := blocks + [obuf[..obc]];
        obc := 0;
      }
    }

    /** `null`: one character goes out, in blocks of `obs`. */
    method Null(c: int)
      requires Valid()
      modifies this`obc, this`blocks, obuf
      ensures Valid() && Emitted() == old(Emitted()) + [c]
      ensures obc == (if old(obc) + 1 == obs then 0 else old(obc) + 1) && (obc != 0 ==> blocks == old(blocks))
    {
      ghost var was := obuf[..obc];
      obuf[obc] := c;
      obc := obc + 1;
      assert obuf[..obc] == was + [c];
      if obc >= obs {
        Flush();
        assert obuf[..0] == [];
      }
    }

    /** `n` spaces. */
    method Pad(n: nat)
      requires Valid()
      modifies this`obc, this`blocks, obuf
      ensures Valid() && Emitted() == old(Emitted()) + Spaces(n)
    {
      var k := 0;
      while k < n
        invariant k <= n && Valid() && Emitted() == old(Emitted()) + Spaces(k)
      {
        Null(SPACE);
        k := k + 1;
        assert Spaces(k) == Spaces(k - 1) + [SPACE];
      }
    }

    /** `block` */
    method Block(c: int)
      requires Valid()
      modifies this`cbc, this`obc, this`blocks, obuf
      ensures Valid() && cbc == BlockColumn(cbs, old(cbc), c)
      ensures Emitted() == old(Emitted()) + BlockEmits(cbs, old(cbc), c)
    {
      if cbs == 0 {
        Null(c);
        return;
      }
      if c == NEWLINE {
        if cbc < cbs {
          Pad(cbs - cbc);
        }
        cbc := 0;
        return;
      }
      cbc := cbc + 1;
      if cbc <= cbs {
        Null(c);
      }
    }

    /** `unblock` */
    method Unblock(c: int)
      requires Valid()
      modifies this`cbc, this`nspace, this`obc, this`blocks, obuf
      ensures Valid() && cbc == UnblockColumn(cbs, old(cbc)) && nspace == UnblockHeld(cbs, old(cbc), old(nspace), c)
      ensures Emitted() == old(Emitted()) + UnblockEmits(cbs, old(cbc), old(nspace), c)
    {
      if cbs == 0 {
        Null(c);
        return;
      }
      if c == SPACE {
        nspace := nspace + 1;
      } else {
        Pad(nspace);
        nspace := 0;
        Null(c);
      }
      cbc := cbc + 1;
      if cbc >= cbs {
        Null(NEWLINE);
        cbc, nspace := 0, 0;
      }
    }
  }

  /** A whole input through `block`: only how the result is cut depends on the output block size. */
  method RunBlock(cbs: nat, obs: nat, text: seq<int>) returns (blocks: seq<seq<int>>)
    requires obs > 0
    ensures Joined(blocks) == Blocked(cbs, 0, text) && InBlocks(blocks, obs)
  {
    var dd := new Dd(cbs, obs);
    var i := 0;
    assert text[0..] == text;
    while i < |text|
      invariant 0 <= i <= |text| && fresh(dd) && fresh(dd.obuf) && dd.Valid() && dd.cbs == cbs && dd.obs == obs
      invariant dd.Emitted() + Blocked(cbs, dd.cbc, text[i..]) == Blocked(cbs, 0, text)
    {
      ghost var e := dd.Emitted();
      assert text[i..] == [text[i]] + text[i + 1..];
      BlockedCons(cbs, dd.cbc, text[i], text[i + 1..]);
      Regroup(e, BlockEmits(cbs, dd.cbc, text[i]), Blocked(cbs, BlockColumn(cbs, dd.cbc, text[i]), text[i + 1..]));
      dd.Block(text[i]);
      i := i + 1;
    }
    dd.Flush();
    blocks := dd.blocks;
  }

  /** A whole input through `unblock`. */
  method RunUnblock(cbs: nat, obs: nat, text: seq<int>) returns (blocks: seq<seq<int>>)
    requires obs > 0
    ensures Joined(blocks) == Unblocked(cbs, 0, 0, text) && InBlocks(blocks, obs)
  {
    var dd := new Dd(cbs, obs);
    var i := 0;
    assert text[0..] == text;
    while i < |text|
      invariant 0 <= i <= |text| && fresh(dd) && fresh(dd.obuf) && dd.Valid() && dd.cbs == cbs && dd.obs == obs
      invariant dd.Emitted() + Unblocked(cbs, dd.cbc, dd.nspace, text[i..]) == Unblocked(cbs, 0, 0, text)
    {
      ghost var e := dd.Emitted();
      assert text[i..] == [text[i]] + text[i + 1..];
      UnblockedCons(cbs, dd.cbc, dd.nspace, text[i], text[i + 1..]);
      Regroup(e, UnblockEmits(cbs, dd.cbc, dd.nspace, text[i]),
              Unblocked(cbs, UnblockColumn(cbs, dd.cbc), UnblockHeld(cbs, dd.cbc, dd.nspace, text[i]), text[i + 1..]));
      dd.Unblock(text[i]);
      i := i + 1;
    }
    dd.Flush();
    blocks := dd.blocks;
  }
}
