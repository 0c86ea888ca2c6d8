/**
 `ecp`: a file copied in big blocks; a block that fails is retried one sector at a time.
 Sectors are the unit: a file is a map from sector numbers, counted from where the copy
 starts, to contents.
 */
module Ecp {

  const MINGOODBLKS := 3

  function Range(lo: int, hi: int): (r: seq<int>)
    requires lo <= hi
    ensures |r| == hi - lo && forall k :: 0 <= k < |r| ==> r[k] == lo + k
  {
    seq(hi - lo, k => lo + k)
  }

  /** `data` with the sectors from `at` on replaced; a sector for which there is nothing stays. */
  function Stored(data: map<int, int>, at: int, s: seq<Option<int>>): (r: map<int, int>)
    ensures forall i :: !(at <= i < at + |s|) ==> (i in r <==> i in data) && (i in r ==> r[i] == data[i])
    ensures forall i :: at <= i < at + |s| && s[i - at].Some? ==> i in r && r[i] == s[i - at].value
  {
    if s == [] then data
    else
      var n := |s| - 1;
      var r := Stored(data, at, s[..n]);
      if s[n].Some? then r[at + n := s[n].value] else r
  }

  datatype Option<T> = None | Some(value: T)

  /** What a failed transfer leaves behind: where the file is, and what became of each sector. */
  datatype Failure = Failure(pos: int, sectors: nat -> Option<int>)

  /** How many of the transfers went wrong. */
  function Bad(good: seq<bool>): nat {
    if good == [] then 0 else Bad(good[..|good| - 1]) + if good[|good| - 1] then 0 else 1
  }

  lemma {:induction false} BadNone(good: seq<bool>)
    ensures Bad(good) == 0 <==> forall k :: 0 <= k < |good| ==> good[k]
  {
    if good != [] {
      BadNone(good[..|good| - 1]);
      assert good == good[..|good| - 1] + [good[|good| - 1]];
    }
  }

  /**
   One call of `bio`: the sectors asked for, whether it sought them first, where the file
   was before, and whether it did as asked.
   */
  datatype Entry = Entry(writing: bool, at: int, count: nat, sought: bool, pos: int, ok: bool) {
    /** Where the transfer took place. */
    function Place(): int {
      if sought then at else pos
    }

    predicate Covers(i: int) {
      at <= i < at + count
    }
  }

  /** How the last transfer of sector `i` went, if there was one. */
  function Last(log: seq<Entry>, i: int): Option<bool> {
    if log == [] then None
    else if log[|log| - 1].Covers(i) then Some(log[|log| - 1].ok)
    else Last(log[..|log| - 1], i)
  }

  lemma {:induction false} LastConcat(a: seq<Entry>, b: seq<Entry>, i: int)
    ensures Last(a + b, i) == if Last(b, i).Some? then Last(b, i) else Last(a, i)
    decreases |b|
  {
    if b == [] {
      assert a + b == a;
    } else {
      assert (a + b)[..|a + b| - 1] == a + b[..|b| - 1];
      LastConcat(a, b[..|b| - 1], i);
    }
  }

  class File {
    var data: map<int, int>
    var pos: int
    var fast: bool
    const maxconerrs: nat
    var conerrs: nat
    var congoodblks: nat
    var harderrs: nat
    var lasterr: int
    var lastgood: int
    var calls: nat
    /** Every call of `bio` so far. */
    ghost var log: seq<Entry>
    /** How the n-th transfer fails, if it does. */
    const failure: nat -> Option<Failure>

    constructor (data: map<int, int>, maxconerrs: nat, failure: nat -> Option<Failure>)
      ensures this.data == data && Opened(this)
      ensures this.maxconerrs == maxconerrs && this.failure == failure
    {
      this.data, this.maxconerrs, this.failure := data, maxconerrs, failure;
      pos, fast, conerrs, congoodblks, harderrs, lasterr, lastgood, calls := 0, true, 0, 0, 0, -1, -1, 0;
      log := [];
    }
  }

  /** A file as `initfile` leaves it. */
  ghost predicate Opened(fp: File)
    reads fp
  {
    && fp.pos == 0 && fp.fast && fp.conerrs == 0 && fp.congoodblks == 0 && fp.harderrs == 0
    && fp.lasterr == -1 && fp.lastgood == -1 && fp.calls == 0 && fp.log == []
  }

  /** No transfer of this file goes wrong. */
  ghost predicate Clean(fp: File) {
    forall n :: fp.failure(n) == None
  }

  /** The log has every transfer, with the outcome that the device gave it. */
  ghost predicate Genuine(fp: File, writing: bool)
    reads fp
  {
    && |fp.log| == fp.calls
    && forall n :: 0 <= n < |fp.log| ==>
         && fp.log[n].writing == writing
         && (fp.log[n].ok <==>
             fp.failure(n) == None && (writing || Present(fp.data, fp.log[n].Place(), fp.log[n].count)))
  }

  /** No transfer without a seek starts anywhere but at its first sector. */
  ghost predicate InPlace(log: seq<Entry>) {
    forall n :: 0 <= n < |log| ==> log[n].sought || log[n].pos == log[n].at
  }

  /** All of the sectors are there to be read. */
  predicate Present(data: map<int, int>, at: int, sects: nat) {
    forall i :: at <= i < at + sects ==> i in data
  }

  /** The buffer from `off` on holds the sectors from `at` on. */
  ghost predicate Holds(buf: seq<int>, off: nat, data: map<int, int>, at: int, sects: nat) {
    off + sects <= |buf| && forall i :: at <= i < at + sects ==> i in data && buf[off + (i - at)] == data[i]
  }

  /** Outside the sectors from `at` on, nothing changed. */
  ghost predicate Elsewhere(data: map<int, int>, data': map<int, int>, at: int, sects: nat) {
    forall i :: !(at <= i < at + sects) ==> (i in data <==> i in data') && (i in data ==> data[i] == data'[i])
  }

  /** Outside the stretch from `off` on, nothing changed. */
  ghost predicate Beside(buf: seq<int>, buf': seq<int>, off: nat, sects: nat) {
    |buf| == |buf'| && forall k :: 0 <= k < |buf| && !(off <= k < off + sects) ==> buf'[k] == buf[k]
  }

  /** `bio` for a read: a transfer past the end of the data is an error too. */
  method Read(fp: File, buf: array<int>, off: nat, stsect: int, sects: nat, mustseek: bool) returns (ok: bool)
    requires off + sects <= buf.Length
    modifies fp`pos, fp`calls, fp`log, buf
    ensures fp.calls == old(fp.calls) + 1
    ensures fp.log == old(fp.log) + [Entry(false, stsect, sects, mustseek, old(fp.pos), ok)]
    ensures var place := if mustseek then stsect else old(fp.pos);
            && (ok <==> fp.failure(old(fp.calls)) == None && Present(fp.data, place, sects))
            && (ok ==> fp.pos == place + sects && Holds(buf[..], off, fp.data, place, sects))
    ensures Beside(old(buf[..]), buf[..], off, sects)
  {
    ghost var pos := fp.pos;
    if mustseek {
      fp.pos := stsect;
    }
    var f := fp.failure(fp.calls);
    fp.calls := fp.calls + 1;
    ok := f == None && Present(fp.data, fp.pos, sects);
    if ok {
      forall k | 0 <= k < sects {
        buf[off + k] := fp.data[fp.pos + k];
      }
      fp.pos := fp.pos + sects;
    } else if f.Some? {
      forall k | 0 <= k < sects && f.value.sectors(k).Some? {
        buf[off + k] := f.value.sectors(k).value;
      }
      fp.pos := f.value.pos;
    }
    fp.log := fp.log + [Entry(false, stsect, sects, mustseek, pos, ok)];
  }

  /** Every sector of a transfer that goes well. */
  function Whole(s: seq<int>): (r: seq<Option<int>>)
    ensures |r| == |s| && forall k :: 0 <= k < |s| ==> r[k] == Some(s[k])
  {
    seq(|s|, k requires 0 <= k < |s| => Some(s[k]))
  }

  lemma StoredHolds(data: map<int, int>, at: int, buf: seq<int>, off: nat, sects: nat, r: map<int, int>)
    requires off + sects <= |buf| && r == Stored(data, at, Whole(buf[off..off + sects]))
    ensures Holds(buf, off, r, at, sects)
  {
    var s := Whole(buf[off..off + sects]);
    forall i | at <= i < at + sects
      ensures i in r && buf[off + (i - at)] == r[i]
    {
      assert s[i - at] == Some(buf[off + (i - at)]);
    }
  }

  lemma StoredElsewhere(data: map<int, int>, at: int, s: seq<Option<int>>)
    ensures Elsewhere(data, Stored(data, at, s), at, |s|)
  {
  }

  /** `bio` for a write. */
  method Write(fp: File, buf: array<int>, off: nat, stsect: int, sects: nat, mustseek: bool) returns (ok: bool)
    requires off + sects <= buf.Length
    modifies fp`pos, fp`calls, fp`data, fp`log
    ensures fp.calls == old(fp.calls) + 1
    ensures fp.log == old(fp.log) + [Entry(true, stsect, sects, mustseek, old(fp.pos), ok)]
    ensures var place := if mustseek then stsect else old(fp.pos);
            && (ok <==> fp.failure(old(fp.calls)) == None)
            && (ok ==> fp.pos == place + sects && Holds(buf[..], off, fp.data, place, sects))
            && Elsewhere(old(fp.data), fp.data, place, sects)
  {
    ghost var pos := fp.pos;
    if mustseek {
      fp.pos := stsect;
    }
    var f := fp.failure(fp.calls);
    fp.calls := fp.calls + 1;
    ok := f == None;
    var s := if ok then Whole(buf[off..off + sects]) else seq(sects, f.value.sectors);
    StoredElsewhere(fp.data, fp.pos, s);
    if ok {
      StoredHolds(fp.data, fp.pos, buf[..], off, sects, Stored(fp.data, fp.pos, s));
    }
    fp.data := Stored(fp.data, fp.pos, s);
    fp.pos := if ok then fp.pos + sects else f.value.pos;
    fp.log := fp.log + [Entry(true, stsect, sects, mustseek, pos, ok)];
  }

  /** One sector is in the buffer as it is in the file. */
  ghost predicate Same(buf: seq<int>, k: nat, data: map<int, int>, i: int) {
    k < |buf| && i in data && buf[k] == data[i]
  }

  /** The sectors whose last transfer succeeded are the same in the buffer and in the file. */
  ghost predicate Agrees(buf: seq<int>, data: map<int, int>, stsect: int, good: seq<bool>) {
    forall k :: 0 <= k < |good| && good[k] ==> Same(buf, k, data, stsect + k)
  }

  /** A read changes only the buffer, a write only the file, and only where it should. */
  ghost predicate Confined(writing: bool, buf: seq<int>, buf': seq<int>, data: map<int, int>, data': map<int, int>,
                           off: nat, stsect: int, sects: nat)
  {
    if writing then buf' == buf && Elsewhere(data, data', stsect, sects)
    else data' == data && Beside(buf, buf', off, sects)
  }

  /** The file's mode and counters. */
  datatype Mode = Mode(fast: bool, congoodblks: nat, lastgood: int)

  ghost function ModeOf(fp: File): Mode
    reads fp
  {
    Mode(fp.fast, fp.congoodblks, fp.lastgood)
  }

  /** `transfer`: an error ends fast mode and the count of good blocks. */
  method Transfer(fp: File, writing: bool, buf: array<int>, off: nat, stsect: int, sects: nat, mustseek: bool)
    returns (ok: bool)
    requires off + sects <= buf.Length && (!mustseek ==> fp.pos == stsect) && Genuine(fp, writing)
    modifies fp, buf
    ensures Genuine(fp, writing) && fp.log == old(fp.log) + [Entry(writing, stsect, sects, mustseek, old(fp.pos), ok)]
    ensures ok <==> fp.failure(old(fp.calls)) == None && (writing || Present(fp.data, stsect, sects))
    ensures ok ==> fp.pos == stsect + sects && Holds(buf[..], off, fp.data, stsect, sects)
    ensures Confined(writing, old(buf[..]), buf[..], old(fp.data), fp.data, off, stsect, sects)
    ensures fp.harderrs == old(fp.harderrs) && fp.conerrs == old(fp.conerrs) && fp.lasterr == old(fp.lasterr)
    ensures ModeOf(fp) == if ok then old(ModeOf(fp)).(lastgood := stsect + sects - 1)
                          else Mode(false, 0, old(fp.lastgood))
  {
    if writing {
      ok := Write(fp, buf, off, stsect, sects, mustseek);
    } else {
      ok := Read(fp, buf, off, stsect, sects, mustseek);
    }
    if !ok {
      fp.fast := false;
      fp.congoodblks := 0;
    } else {
      fp.lastgood := stsect + sects - 1;
    }
  }

  /** `toomanyerrs` */
  method TooManyErrors(fp: File, sect: int) returns (fatal: bool)
    modifies fp`conerrs, fp`lasterr
    ensures fp.conerrs == (if sect == old(fp.lasterr) + 1 then old(fp.conerrs) + 1 else 0) && fp.lasterr == sect
    ensures fatal <==> fp.maxconerrs != 0 && fp.conerrs >= fp.maxconerrs && fp.lastgood == -1
  {
    fp.conerrs := if sect == fp.lasterr + 1 then fp.conerrs + 1 else 0;
    fp.lasterr := sect;
    fatal := fp.maxconerrs != 0 && fp.conerrs >= fp.maxconerrs && fp.lastgood == -1;
  }

  // ---------------------------------------------------------------- giving up

  ghost predicate NoneGood(log: seq<Entry>) {
    forall k :: 0 <= k < |log| ==> !log[k].ok
  }

  /** The sector tried before entry `k`; the first entry is the big transfer, and no try of a sector. */
  function TriedBefore(log: seq<Entry>, k: int): int
    requires 1 <= k < |log|
  {
    if k == 1 then -1 else log[k - 1].at
  }

  /** A sector on its own, the one after the sector tried before it. */
  ghost predicate Adjoining(log: seq<Entry>, k: int)
    requires 1 <= k < |log|
  {
    log[k].count == 1 && log[k].sought && log[k].at == TriedBefore(log, k) + 1
  }

  /** The last `m` entries are tries of single sectors, each the one after the one tried before. */
  ghost predicate InARow(log: seq<Entry>, m: nat) {
    |log| > m && forall k :: |log| - m <= k < |log| ==> Adjoining(log, k)
  }

  /**
   No reason to go on with a file: nothing was ever read or written on it, and the last
   `m` tries failed on consecutive sectors, where `m` is the limit that was set.
   */
  ghost predicate Hopeless(log: seq<Entry>, m: nat) {
    m != 0 && NoneGood(log) && InARow(log, m)
  }

  /** It never was so before. */
  ghost predicate NeverBefore(log: seq<Entry>, m: nat, n: nat) {
    forall k: nat :: k < n && k <= |log| ==> !Hopeless(log[..k], m)
  }

  /** What is counted of a file's errors. */
  datatype Counters = Counters(conerrs: nat, lasterr: int, lastgood: int)

  ghost function CountersOf(fp: File): Counters
    reads fp
  {
    Counters(fp.conerrs, fp.lasterr, fp.lastgood)
  }

  /** A try of sector `at` on its own. */
  function CountNext(c: Counters, at: int, ok: bool): Counters {
    if ok then c.(conerrs := 0, lastgood := at)
    else Counters(if at == c.lasterr + 1 then c.conerrs + 1 else 0, at, c.lastgood)
  }

  /** The test of `toomanyerrs`. */
  predicate Over(c: Counters, m: nat) {
    m != 0 && c.conerrs >= m && c.lastgood == -1
  }

  /** The counters of a file that is still being worked on, as its log tells them. */
  ghost predicate Hopes(log: seq<Entry>, m: nat, fast: bool, c: Counters) {
    && NeverBefore(log, m, |log| + 1)
    && (c.lastgood == -1 <==> NoneGood(log))
    && (log == [] ==> fast && c.conerrs == 0 && c.lasterr == -1)
    && (NoneGood(log) && log != [] ==>
          && !fast && c.lasterr == (if |log| == 1 then -1 else log[|log| - 1].at)
          && InARow(log, c.conerrs) && !InARow(log, c.conerrs + 1))
  }

  ghost predicate Hoping(fp: File)
    reads fp
  {
    Hopes(fp.log, fp.maxconerrs, fp.fast, CountersOf(fp))
  }

  /** A file that has just been given up. */
  ghost predicate GivenUp(fp: File)
    reads fp
  {
    Hopeless(fp.log, fp.maxconerrs) && NeverBefore(fp.log, fp.maxconerrs, |fp.log|)
  }

  /** What is known of a file after a block: it was given up just now, or is still worked on. */
  ghost predicate Decided(fp: File, fatal: bool)
    reads fp
  {
    if fatal then GivenUp(fp) else Hoping(fp)
  }

  lemma OpenedHopes(log: seq<Entry>, m: nat)
    requires log == []
    ensures Hopes(log, m, true, Counters(0, -1, -1))
  {
  }

  lemma HopesNow(log: seq<Entry>, m: nat, fast: bool, c: Counters)
    requires Hopes(log, m, fast, c)
    ensures !Hopeless(log, m) && NeverBefore(log, m, |log|)
  {
    assert log[..|log|] == log;
  }

  lemma NeverBeforeNext(log: seq<Entry>, e: Entry, m: nat)
    requires NeverBefore(log, m, |log| + 1)
    ensures NeverBefore(log + [e], m, |log| + 1)
    ensures !Hopeless(log + [e], m) ==> NeverBefore(log + [e], m, |log| + 2)
  {
    forall k: nat | k <= |log|
      ensures (log + [e])[..k] == log[..k]
    {
    }
    assert (log + [e])[..|log| + 1] == log + [e];
  }

  /** The first transfer of a file, a big one. */
  lemma HopesFirst(e: Entry, m: nat, fast: bool, lastgood: int)
    requires e.ok ==> lastgood != -1
    requires !e.ok ==> !fast && lastgood == -1
    ensures Hopes([e], m, fast, Counters(0, -1, lastgood))
  {
    assert [e][..0] == [] && [e][..1] == [e] && [e][0] == e;
  }

  /** Once something went well, a file is never given up. */
  lemma HopesGood(log: seq<Entry>, e: Entry, m: nat, fast: bool, c: Counters, fast': bool, c': Counters)
    requires Hopes(log, m, fast, c) && c'.lastgood != -1 && (e.ok || c.lastgood != -1)
    ensures Hopes(log + [e], m, fast', c')
  {
    assert !NoneGood(log + [e]) by {
      if !e.ok {
        var k :| 0 <= k < |log| && log[k].ok;
        assert (log + [e])[k].ok;
      } else {
        assert (log + [e])[|log|].ok;
      }
    }
    NeverBeforeNext(log, e, m);
  }

  /** A failed try, and whether it was one too many. */
  lemma HopesBad(log: seq<Entry>, e: Entry, m: nat, c: Counters)
    requires Hopes(log, m, false, c) && c.lastgood == -1 && log != [] && !e.ok && e.count == 1 && e.sought
    ensures var c' := CountNext(c, e.at, false);
            && (Hopeless(log + [e], m) <==> Over(c', m))
            && (!Over(c', m) ==> Hopes(log + [e], m, false, c'))
            && NeverBefore(log + [e], m, |log| + 1)
  {
    var more, c' := log + [e], CountNext(c, e.at, false);
    NeverBeforeNext(log, e, m);
    RowNext(log, e, c.conerrs, c.lasterr, c'.conerrs);
    RowShorter(more, c'.conerrs, m);
  }

  lemma RowSnoc(log: seq<Entry>, e: Entry, m: nat)
    requires log != []
    ensures InARow(log + [e], m + 1) <==> InARow(log, m) && Adjoining(log + [e], |log|)
  {
    var more := log + [e];
    forall k | 1 <= k < |log|
      ensures Adjoining(more, k) <==> Adjoining(log, k)
    {
    }
    if InARow(log, m) && Adjoining(more, |log|) {
      forall k | |more| - (m + 1) <= k < |more|
        ensures Adjoining(more, k)
      {
        assert k < |log| ==> Adjoining(log, k);
      }
    }
  }

  lemma RowNext(log: seq<Entry>, e: Entry, conerrs: nat, lasterr: int, conerrs': nat)
    requires log != [] && e.count == 1 && e.sought && conerrs' == if e.at == lasterr + 1 then conerrs + 1 else 0
    requires lasterr == if |log| == 1 then -1 else log[|log| - 1].at
    requires InARow(log, conerrs) && !InARow(log, conerrs + 1)
    ensures InARow(log + [e], conerrs') && !InARow(log + [e], conerrs' + 1)
  {
    assert Adjoining(log + [e], |log|) <==> e.at == lasterr + 1;
    RowSnoc(log, e, conerrs);
    RowSnoc(log, e, conerrs + 1);
    RowSnoc(log, e, 0);
  }

  /** A row has all shorter rows in it. */
  lemma RowShorter(log: seq<Entry>, n: nat, m: nat)
    requires InARow(log, n) && !InARow(log, n + 1)
    ensures InARow(log, m) <==> m <= n
  {
  }

  /** The counters after tries of the sectors from `at` on. */
  function Count(c: Counters, at: int, good: seq<bool>): Counters {
    if good == [] then c else CountNext(Count(c, at, good[..|good| - 1]), at + |good| - 1, good[|good| - 1])
  }

  /** Some try of them was one too many. */
  predicate Stops(c: Counters, m: nat, at: int, good: seq<bool>) {
    good != [] && (Stops(c, m, at, good[..|good| - 1]) || (!good[|good| - 1] && Over(Count(c, at, good), m)))
  }

  lemma CountSnoc(c: Counters, m: nat, at: int, good: seq<bool>, ok: bool)
    ensures Count(c, at, good + [ok]) == CountNext(Count(c, at, good), at + |good|, ok)
    ensures Stops(c, m, at, good + [ok]) <==>
            Stops(c, m, at, good) || (!ok && Over(Count(c, at, good + [ok]), m))
  {
    assert (good + [ok])[..|good|] == good;
  }

  /** The counters tell what the log of the tries tells, up to the one too many. */
  lemma {:induction false} TriesHope(log0: seq<Entry>, log: seq<Entry>, writing: bool, at: int, good: seq<bool>,
                                     m: nat, c: Counters)
    requires Hopes(log0, m, false, c) && log0 != [] && at >= 0 && Grew(log0, log)
    requires Tries(log[|log0|..], writing, at, good)
    requires good != [] ==> !Stops(c, m, at, good[..|good| - 1])
    ensures if Stops(c, m, at, good) then Hopeless(log, m) && NeverBefore(log, m, |log|)
            else Hopes(log, m, false, Count(c, at, good))
  {
    if good == [] {
      assert log == log0;
    } else {
      var n := |good| - 1;
      var init, e := log[..|log| - 1], log[|log| - 1];
      assert init[|log0|..] == log[|log0|..][..n] && init[..|log0|] == log0;
      assert log == init + [e] && e == log[|log0|..][n];
      StopsInit(c, m, at, good[..n]);
      TriesHope(log0, init, writing, at, good[..n], m, c);
      TryHopes(init, e, m, Count(c, at, good[..n]), at + n, good[n]);
    }
  }

  lemma {:induction false} StopsInit(c: Counters, m: nat, at: int, good: seq<bool>)
    requires !Stops(c, m, at, good)
    ensures good != [] ==> !Stops(c, m, at, good[..|good| - 1])
  {
  }

  lemma TryHopes(log: seq<Entry>, e: Entry, m: nat, c: Counters, at: int, ok: bool)
    requires Hopes(log, m, false, c) && log != [] && at >= 0
    requires e.at == at && e.count == 1 && e.sought && e.ok == ok
    ensures var c' := CountNext(c, at, ok);
            if !ok && Over(c', m) then Hopeless(log + [e], m) && NeverBefore(log + [e], m, |log| + 1)
            else Hopes(log + [e], m, false, c')
  {
    if ok || c.lastgood != -1 {
      HopesGood(log, e, m, false, c, false, CountNext(c, at, ok));
    } else {
      HopesBad(log, e, m, c);
    }
  }

  /** Each sector from `at` on tried on its own, with the outcomes `good`. */
  ghost predicate Tries(log: seq<Entry>, writing: bool, at: int, good: seq<bool>) {
    && |log| == |good|
    && forall k :: 0 <= k < |log| ==>
         && log[k].writing == writing && log[k].at == at + k && log[k].count == 1 && log[k].sought
         && log[k].ok == good[k]
  }

  /**
   What `bigxfer` logs for a block, `good` telling how the last transfer of each sector
   went: in fast mode a transfer of the whole, and if that fails or in slow mode each
   sector on its own.
   */
  ghost predicate BlockLog(log: seq<Entry>, writing: bool, at: int, sought: bool, fast: bool, good: seq<bool>) {
    if fast then
      && log != [] && log[0].writing == writing && log[0].at == at && log[0].count == |good| && log[0].sought == sought
      && (if log[0].ok then |log| == 1 && forall k :: 0 <= k < |good| ==> good[k]
          else Tries(log[1..], writing, at, good))
    else Tries(log, writing, at, good)
  }

  lemma {:induction false} TriesLast(log: seq<Entry>, writing: bool, at: int, good: seq<bool>, i: int)
    requires Tries(log, writing, at, good)
    ensures Last(log, i) == if at <= i < at + |good| then Some(good[i - at]) else None
  {
    if log != [] {
      var n := |log| - 1;
      TriesLast(log[..n], writing, at, good[..n], i);
    }
  }

  /** The log tells how the last transfer of every sector of the block went. */
  lemma BlockLast(log: seq<Entry>, writing: bool, at: int, sought: bool, fast: bool, good: seq<bool>, i: int)
    requires BlockLog(log, writing, at, sought, fast, good)
    ensures Last(log, i) == if at <= i < at + |good| then Some(good[i - at]) else None
  {
    if !fast {
      TriesLast(log, writing, at, good, i);
    } else if log[0].ok {
      assert log[..0] == [];
    } else {
      TriesLast(log[1..], writing, at, good, i);
      LastConcat(log[..1], log[1..], i);
      assert log == log[..1] + log[1..];
      assert log[..1][..0] == [];
    }
  }

  /**
   `bigxfer`: one big transfer in fast mode; if that fails, or in slow mode, sector by
   sector. Unless it gives up, the file is left after the last sector.
   */
  method BigTransfer(fp: File, writing: bool, buf: array<int>, stsect: int, sects: nat, mustseek: bool)
    returns (fatal: bool, ghost good: seq<bool>)
    requires sects <= buf.Length && (!mustseek ==> fp.pos == stsect) && Genuine(fp, writing) && InPlace(fp.log)
    modifies fp, buf
    ensures Genuine(fp, writing) && InPlace(fp.log) && Grew(old(fp.log), fp.log)
    ensures Confined(writing, old(buf[..]), buf[..], old(fp.data), fp.data, 0, stsect, sects)
    ensures !fatal ==> |good| == sects && Agrees(buf[..], fp.data, stsect, good)
    ensures !fatal ==> BlockLog(fp.log[|old(fp.log)|..], writing, stsect, mustseek, old(fp.fast), good)
    ensures !fatal ==> fp.harderrs == old(fp.harderrs) + Bad(good)
    ensures !fatal && sects > 0 ==> fp.pos == stsect + sects
    ensures fatal ==> fp.maxconerrs != 0
    ensures Clean(fp) && (writing || Present(fp.data, stsect, sects)) ==> !fatal && Bad(good) == 0
    ensures !fatal ==> fp.fast == StaysFast(old(ModeOf(fp)), fp.log[|old(fp.log)|..], good)
    ensures !old(Hoping(fp)) || !InOrder(old(fp.log), stsect, sects) || Decided(fp, fatal)
  {
    ghost var log0, c, fast := fp.log, CountersOf(fp), fp.fast;
    fatal := false;
    if fp.fast {
      var ok := Transfer(fp, writing, buf, 0, stsect, sects, mustseek);
      if ok {
        good := seq(sects, _ => true);
        BadNone(good);
        AllAgree(buf[..], fp.data, stsect, sects);
        assert fp.log[|log0|..] == [fp.log[|log0|]];
        GoodDecided(log0, fp.log, stsect, sects, fp.maxconerrs, c, fp.fast, CountersOf(fp));
        return;
      }
    }
    ghost var b, d, log1, congood := buf[..], fp.data, fp.log, fp.congoodblks;
    fatal, good := EachSector(fp, writing, buf, stsect, sects, Was(b, d, log1, fp.harderrs));
    ConfinedTwice(writing, old(buf[..]), b, buf[..], old(fp.data), d, fp.data, stsect, sects);
    if !fatal {
      LogAfterFast(log0, log1, fp.log);
    }
    BlockDecided(log0, log1, fp.log, writing, stsect, sects, fast, c, fp.maxconerrs, good, fatal, CountersOf(fp),
                 fp.fast, congood);
  }

  /** Only the first block of a file may be empty, and then it is not at its start. */
  ghost predicate InOrder(log: seq<Entry>, stsect: int, sects: nat) {
    stsect >= 0 && (sects > 0 || (log == [] && stsect > 0))
  }

  /** A block whose big transfer went well. */
  lemma GoodDecided(log0: seq<Entry>, log: seq<Entry>, stsect: int, sects: nat, m: nat, c: Counters, fast: bool,
                    c': Counters)
    requires |log| == |log0| + 1 && log == log0 + [log[|log0|]] && log[|log0|].ok
    requires c' == c.(lastgood := stsect + sects - 1)
    ensures Hopes(log0, m, true, c) && InOrder(log0, stsect, sects) ==> Hopes(log, m, fast, c')
  {
    if Hopes(log0, m, true, c) && InOrder(log0, stsect, sects) {
      HopesGood(log0, log[|log0|], m, true, c, fast, c');
    }
  }

  /** A block whose big transfer failed, or was not tried, seen from the counters. */
  lemma BlockDecided(log0: seq<Entry>, log1: seq<Entry>, log2: seq<Entry>, writing: bool, stsect: int, sects: nat,
                     fast: bool, c: Counters, m: nat, good: seq<bool>, fatal: bool, c': Counters, fast': bool,
                     congood: nat)
    requires if fast then |log1| == |log0| + 1 && log1 == log0 + [log1[|log0|]] && !log1[|log0|].ok && congood == 0
             else log1 == log0
    requires Grew(log1, log2) && Tries(log2[|log1|..], writing, stsect, good)
    requires Counted(c, c', m, stsect, good, fatal)
    requires !fatal ==> |good| == sects && fast' == (Bad(good) == 0 && congood + 1 >= MINGOODBLKS)
    ensures Hopes(log0, m, fast, c) && InOrder(log0, stsect, sects) ==>
              if fatal then Hopeless(log2, m) && NeverBefore(log2, m, |log2|) else Hopes(log2, m, fast', c')
  {
    if !(Hopes(log0, m, fast, c) && InOrder(log0, stsect, sects)) {
      return;
    }
    if fast && log0 == [] {
      HopesFirst(log1[0], m, false, -1);
      assert log1 == [log1[0]];
    } else if fast {
      HopesGood(log0, log1[|log0|], m, true, c, false, c);
    }
    TriesHope(log1, log2, writing, stsect, good, m, c);
    if !fatal {
      if good == [] {
        assert log2 == log1;
      } else {
        TriesNone(log1, log2, writing, stsect, good);
      }
    }
  }

  /** If nothing ever went well, no try of the last block did. */
  lemma TriesNone(log1: seq<Entry>, log2: seq<Entry>, writing: bool, at: int, good: seq<bool>)
    requires Grew(log1, log2) && Tries(log2[|log1|..], writing, at, good) && good != []
    ensures NoneGood(log2) ==> Bad(good) != 0
  {
    BadNone(good);
    assert log2[|log1|..][0] == log2[|log1|];
  }

  lemma LogAfterFast(log0: seq<Entry>, log1: seq<Entry>, log2: seq<Entry>)
    requires Grew(log0, log1) && Grew(log1, log2)
    ensures |log1| == |log0| + 1 ==> log2[|log0|..] == [log1[|log0|]] + log2[|log1|..]
  {
  }

  /** The mode after a block: fast again after enough blocks without errors. */
  ghost predicate StaysFast(m: Mode, log: seq<Entry>, good: seq<bool>) {
    if m.fast && log != [] && log[0].ok then true
    else Bad(good) == 0 && (if m.fast then 0 else m.congoodblks) + 1 >= MINGOODBLKS
  }

  lemma AllAgree(buf: seq<int>, data: map<int, int>, stsect: int, sects: nat)
    requires Holds(buf, 0, data, stsect, sects)
    ensures Agrees(buf, data, stsect, seq(sects, _ => true))
  {
  }

  lemma ConfinedTwice(writing: bool, b0: seq<int>, b1: seq<int>, b2: seq<int>, d0: map<int, int>,
                     d1: map<int, int>, d2: map<int, int>, stsect: int, sects: nat)
    requires Confined(writing, b0, b1, d0, d1, 0, stsect, sects) && Confined(writing, b1, b2, d1, d2, 0, stsect, sects)
    ensures Confined(writing, b0, b2, d0, d2, 0, stsect, sects)
  {
  }

  /** The log was only added to. */
  ghost predicate Grew(log0: seq<Entry>, log: seq<Entry>) {
    |log| >= |log0| && log[..|log0|] == log0
  }

  lemma TriesMore(log0: seq<Entry>, log: seq<Entry>, writing: bool, at: int, good: seq<bool>, e: Entry)
    requires Grew(log0, log) && Tries(log[|log0|..], writing, at, good) && InPlace(log)
    requires e.writing == writing && e.at == at + |good| && e.count == 1 && e.sought
    ensures Grew(log0, log + [e]) && Tries((log + [e])[|log0|..], writing, at, good + [e.ok]) && InPlace(log + [e])
  {
    assert (log + [e])[|log0|..] == log[|log0|..] + [e];
    assert (log + [e])[..|log0|] == log[..|log0|];
  }

  /** What there was when a block was begun. */
  datatype Was = Was(buf: seq<int>, data: map<int, int>, log: seq<Entry>, harderrs: nat)

  /** Some sectors of a block have been tried on their own, `good` telling how that went. */
  ghost predicate Trying(fp: File, writing: bool, buf: array<int>, stsect: int, sects: nat, was: Was, good: seq<bool>)
    reads fp, buf
  {
    && Genuine(fp, writing) && InPlace(fp.log) && Grew(was.log, fp.log) && |good| <= sects <= buf.Length
    && Tries(fp.log[|was.log|..], writing, stsect, good)
    && Confined(writing, was.buf, buf[..], was.data, fp.data, 0, stsect, sects)
    && Agrees(buf[..], fp.data, stsect, good)
  }

  ghost predicate Tried(fp: File, writing: bool, buf: array<int>, stsect: int, sects: nat, was: Was, good: seq<bool>)
    reads fp, buf
  {
    Trying(fp, writing, buf, stsect, sects, was, good)
  }

  /** The device has no fault, and what is to be read is there. */
  ghost predicate Sound(fp: File, writing: bool, stsect: int, sects: nat)
    reads fp
  {
    Clean(fp) && (writing || Present(fp.data, stsect, sects))
  }

  /** One sector tried on its own. */
  method TryOne(fp: File, writing: bool, buf: array<int>, stsect: int, sects: nat, i: nat, ghost was: Was,
                ghost good: seq<bool>)
    returns (ok: bool)
    requires i == |good| < sects && Tried(fp, writing, buf, stsect, sects, was, good)
    modifies fp, buf
    ensures Tried(fp, writing, buf, stsect, sects, was, good + [ok])
    ensures ok ==> fp.pos == stsect + i + 1
    ensures Sound(fp, writing, stsect, sects) ==> ok
    ensures fp.harderrs == old(fp.harderrs) && fp.conerrs == old(fp.conerrs) && fp.lasterr == old(fp.lasterr)
    ensures ModeOf(fp) == if ok then old(ModeOf(fp)).(lastgood := stsect + i) else Mode(false, 0, old(fp.lastgood))
  {
    ghost var b, d, log := buf[..], fp.data, fp.log;
    ok := Transfer(fp, writing, buf, i, stsect + i, 1, true);
    TriesMore(was.log, log, writing, stsect, good, fp.log[|log|]);
    OneMore(writing, was.buf, b, buf[..], was.data, d, fp.data, stsect, sects, good, ok);
  }

  /** One sector tried, and what it does to the counters. */
  method CountOne(fp: File, writing: bool, buf: array<int>, stsect: int, sects: nat, i: nat, ghost was: Was,
                  ghost good: seq<bool>)
    returns (ok: bool, fatal: bool)
    requires i == |good| < sects && Tried(fp, writing, buf, stsect, sects, was, good)
    modifies fp, buf
    ensures Tried(fp, writing, buf, stsect, sects, was, good + [ok])
    ensures ok ==> fp.pos == stsect + i + 1
    ensures Sound(fp, writing, stsect, sects) ==> ok
    ensures fp.harderrs == old(fp.harderrs) + (if ok then 0 else 1) && (fatal ==> !ok && fp.maxconerrs != 0)
    ensures ModeOf(fp) == if ok then old(ModeOf(fp)).(lastgood := stsect + i) else Mode(false, 0, old(fp.lastgood))
    ensures CountersOf(fp) == CountNext(old(CountersOf(fp)), stsect + i, ok)
    ensures fatal <==> !ok && Over(CountersOf(fp), fp.maxconerrs)
  {
    ok := TryOne(fp, writing, buf, stsect, sects, i, was, good);
    fatal := false;
    if !ok {
      fp.harderrs := fp.harderrs + 1;
      fatal := TooManyErrors(fp, stsect + i);
    } else {
      fp.conerrs := 0;
    }
  }

  lemma BadSnoc(good: seq<bool>, ok: bool)
    ensures Bad(good + [ok]) == Bad(good) + if ok then 0 else 1
  {
    assert (good + [ok])[..|good|] == good;
  }

  /** The tries of a block came to an end: with all sectors tried, or with one error too many. */
  ghost predicate Counted(c: Counters, c': Counters, m: nat, at: int, good: seq<bool>, fatal: bool) {
    && (fatal <==> Stops(c, m, at, good)) && (good != [] ==> !Stops(c, m, at, good[..|good| - 1]))
    && (!fatal ==> c' == if Bad(good) == 0 then Count(c, at, good).(conerrs := 0) else Count(c, at, good))
  }

  /** The counts after some tries, none of them one too many. */
  ghost predicate Tallied(c: Counters, c': Counters, m: nat, at: int, good: seq<bool>, badsects: nat) {
    badsects == Bad(good) && c' == Count(c, at, good) && !Stops(c, m, at, good)
  }

  lemma TalliedStart(c: Counters, m: nat, at: int)
    ensures Tallied(c, c, m, at, [], 0)
  {
  }

  lemma TalliedNext(c: Counters, c1: Counters, m: nat, at: int, good: seq<bool>, badsects: nat, ok: bool)
    requires Tallied(c, c1, m, at, good, badsects)
    ensures var c2 := CountNext(c1, at + |good|, ok);
            if !ok && Over(c2, m) then Counted(c, c2, m, at, good + [ok], true)
            else Tallied(c, c2, m, at, good + [ok], badsects + if ok then 0 else 1)
  {
    BadSnoc(good, ok);
    CountSnoc(c, m, at, good, ok);
    assert (good + [ok])[..|good|] == good;
  }

  lemma TalliedEnd(c: Counters, c1: Counters, m: nat, at: int, good: seq<bool>, badsects: nat)
    requires Tallied(c, c1, m, at, good, badsects)
    ensures Counted(c, if badsects == 0 then c1.(conerrs := 0) else c1, m, at, good, false)
    ensures badsects == Bad(good) && (badsects == 0 && good != [] ==> good[|good| - 1])
  {
    StopsInit(c, m, at, good);
    BadNone(good);
  }

  /** The retries of `bigxfer`, and what they mean for the next block. */
  method EachSector(fp: File, writing: bool, buf: array<int>, stsect: int, sects: nat, ghost was: Was)
    returns (fatal: bool, ghost good: seq<bool>)
    requires Tried(fp, writing, buf, stsect, sects, was, []) && !fp.fast && was.harderrs == fp.harderrs
    modifies fp, buf
    ensures Tried(fp, writing, buf, stsect, sects, was, good)
    ensures !fatal ==> |good| == sects && fp.harderrs == was.harderrs + Bad(good)
    ensures !fatal && sects > 0 ==> fp.pos == stsect + sects
    ensures fatal || Counted(old(CountersOf(fp)), CountersOf(fp), fp.maxconerrs, stsect, good, false)
    ensures !fatal || Counted(old(CountersOf(fp)), CountersOf(fp), fp.maxconerrs, stsect, good, true)
    ensures Sound(fp, writing, stsect, sects) ==> !fatal && Bad(good) == 0
    ensures !fatal ==> fp.fast == (Bad(good) == 0 && old(fp.congoodblks) + 1 >= MINGOODBLKS)
  {
    var i, badsects := 0, 0;
    ghost var c := CountersOf(fp);
    fatal, good := false, [];
    TalliedStart(c, fp.maxconerrs, stsect);
    while i < sects && !fatal
      invariant 0 <= i <= sects && |good| == i && Tried(fp, writing, buf, stsect, sects, was, good)
      invariant fatal || Tallied(c, CountersOf(fp), fp.maxconerrs, stsect, good, badsects)
      invariant !fatal || Counted(c, CountersOf(fp), fp.maxconerrs, stsect, good, true)
      invariant fp.harderrs == was.harderrs + badsects && (fatal ==> fp.maxconerrs != 0)
      invariant i > 0 && good[i - 1] ==> fp.pos == stsect + i
      invariant Sound(fp, writing, stsect, sects) ==> badsects == 0 && !fatal
      invariant !fp.fast && (badsects == 0 ==> fp.congoodblks == old(fp.congoodblks))
      decreases sects - i
    {
      ghost var c1 := CountersOf(fp);
      var ok;
      ok, fatal := CountOne(fp, writing, buf, stsect, sects, i, was, good);
      TalliedNext(c, c1, fp.maxconerrs, stsect, good, badsects, ok);
      good := good + [ok];
      if !ok {
        badsects := badsects + 1;
      }
      i := i + 1;
    }
    if !fatal {
      TalliedEnd(c, CountersOf(fp), fp.maxconerrs, stsect, good, badsects);
      Conclude(fp, writing, buf, stsect, sects, badsects, was, good);
    }
  }

  /** The end of `bigxfer` after retries. */
  method Conclude(fp: File, writing: bool, buf: array<int>, stsect: int, sects: nat, badsects: nat, ghost was: Was,
                  ghost good: seq<bool>)
    requires Tried(fp, writing, buf, stsect, sects, was, good) && !fp.fast
    requires badsects == 0 && sects > 0 ==> fp.pos == stsect + sects
    modifies fp
    ensures Tried(fp, writing, buf, stsect, sects, was, good)
    ensures sects > 0 ==> fp.pos == stsect + sects
    ensures fp.harderrs == old(fp.harderrs)
    ensures CountersOf(fp) == if badsects == 0 then old(CountersOf(fp)).(conerrs := 0) else old(CountersOf(fp))
    ensures fp.fast == (badsects == 0 && old(fp.congoodblks) + 1 >= MINGOODBLKS)
  {
    if badsects == 0 {
      fp.conerrs := 0;
      fp.congoodblks := fp.congoodblks + 1;
      if fp.congoodblks >= MINGOODBLKS {
        fp.fast := true;
      }
    } else {
      fp.pos := stsect + sects;
    }
  }

  /** One sector more, tried on its own. */
  lemma OneMore(writing: bool, b0: seq<int>, b1: seq<int>, b2: seq<int>,
                                   d0: map<int, int>, d1: map<int, int>, d2: map<int, int>, stsect: int, sects: nat,
                                   good: seq<bool>, ok: bool)
    requires |good| < sects <= |b1|
    requires Confined(writing, b0, b1, d0, d1, 0, stsect, sects)
    requires Confined(writing, b1, b2, d1, d2, |good|, stsect + |good|, 1)
    requires Agrees(b1, d1, stsect, good)
    requires ok ==> Holds(b2, |good|, d2, stsect + |good|, 1)
    ensures Confined(writing, b0, b2, d0, d2, 0, stsect, sects)
    ensures Agrees(b2, d2, stsect, good + [ok])
  {
    forall k | 0 <= k < |good + [ok]| && (good + [ok])[k]
      ensures Same(b2, k, d2, stsect + k)
    {
      if k < |good| {
        assert Same(b1, k, d1, stsect + k);
      }
    }
  }

  // ---------------------------------------------------------------- the copy

  /** Disk addresses are unsigned 64-bit numbers. */
  const WRAP := 0x1_0000_0000_0000_0000

  /** `sectsleft`: what is left, but no more than a block; with no sectors at all it wraps around. */
  function SectsLeft(start: nat, nsects: nat, maxxfr: nat): (n: nat)
    requires start <= nsects && nsects + maxxfr < WRAP
    ensures nsects >= 1 ==> n == if maxxfr <= nsects - start then maxxfr else nsects - start
    ensures nsects == 0 ==> n == maxxfr
  {
    if start + maxxfr <= (nsects - 1) % WRAP then maxxfr else nsects - start
  }

  /** Sector `i` was copied. */
  ghost predicate Copied(src: map<int, int>, dest: map<int, int>, i: int) {
    i in src && i in dest && dest[i] == src[i]
  }

  /** What one block adds to a file's log and to its hard errors. */
  ghost predicate Adds(log0: seq<Entry>, log: seq<Entry>, errs0: nat, errs: nat, writing: bool, blk: Blk, sought: bool,
                       fast: bool, good: seq<bool>)
  {
    && Grew(log0, log) && |good| == blk.count && errs == errs0 + Bad(good)
    && BlockLog(log[|log0|..], writing, blk.at, sought, fast, good)
  }

  /** The sectors of a block that were read and written well are the same in both files. */
  ghost predicate BlockCopied(src: map<int, int>, dest: map<int, int>, at: int, read: seq<bool>, written: seq<bool>) {
    |read| == |written| && forall i :: at <= i < at + |read| && read[i - at] && written[i - at] ==> Copied(src, dest, i)
  }

  lemma BothAgree(buf: seq<int>, src: map<int, int>, dest: map<int, int>, at: int,
                                     read: seq<bool>, written: seq<bool>)
    requires |read| == |written| && Agrees(buf, src, at, read) && Agrees(buf, dest, at, written)
    ensures BlockCopied(src, dest, at, read, written)
  {
    forall i | at <= i < at + |read| && read[i - at] && written[i - at]
      ensures Copied(src, dest, i)
    {
      var k := i - at;
      assert Same(buf, k, src, at + k) && Same(buf, k, dest, at + k);
    }
  }

  /** Both files are logged as they should be. */
  ghost predicate Sane(src: File, dest: File)
    reads src, dest
  {
    src != dest && Genuine(src, false) && Genuine(dest, true) && InPlace(src.log) && InPlace(dest.log)
  }

  /** Both files are still being worked on. */
  ghost predicate Hopeful(src: File, dest: File)
    reads src, dest
  {
    Hoping(src) && Hoping(dest)
  }

  /** One of the files has just been given up. */
  ghost predicate Doomed(src: File, dest: File)
    reads src, dest
  {
    (GivenUp(src) && Hoping(dest)) || (Hoping(src) && GivenUp(dest))
  }

  /** `copysects`: a block read and written; both files end up after it. */
  method CopySects(src: File, dest: File, buf: array<int>, stsect: nat, n: nat, mustseek: bool)
    returns (fatal: bool, ghost read: seq<bool>, ghost written: seq<bool>)
    requires Sane(src, dest) && n <= buf.Length
    requires Hopeful(src, dest) && InOrder(src.log, stsect, n) && InOrder(dest.log, stsect, n)
    requires !mustseek ==> src.pos == stsect && dest.pos == stsect
    modifies src, dest, buf
    ensures Sane(src, dest)
    ensures src.data == old(src.data) && Elsewhere(old(dest.data), dest.data, stsect, n)
    ensures !fatal ==>
              Adds(old(src.log), src.log, old(src.harderrs), src.harderrs, false, Blk(stsect, n), mustseek,
                  old(src.fast), read)
    ensures !fatal ==>
              Adds(old(dest.log), dest.log, old(dest.harderrs), dest.harderrs, true, Blk(stsect, n), mustseek,
                  old(dest.fast), written)
    ensures !fatal ==> BlockCopied(src.data, dest.data, stsect, read, written)
    ensures !fatal && n > 0 ==> src.pos == stsect + n && dest.pos == stsect + n
    ensures (!fatal || Doomed(src, dest)) && (fatal || Hopeful(src, dest))
    ensures Clean(src) && Clean(dest) && Present(src.data, stsect, n) ==> !fatal && Bad(read) == 0 && Bad(written) == 0
  {
    written := [];
    fatal, read := BigTransfer(src, false, buf, stsect, n, mustseek);
    if fatal {
      return;
    }
    fatal, written := BigTransfer(dest, true, buf, stsect, n, mustseek);
    if !fatal {
      BothAgree(buf[..], src.data, dest.data, stsect, read, written);
    }
  }

  // ---------------------------------------------------------------- all the blocks

  datatype Blk = Blk(at: nat, count: nat)

  /** The blocks of a forward copy from `stsect` on. */
  function Forward(stsect: nat, nsects: nat, len: nat): seq<Blk>
    requires len >= 1
    decreases if stsect < nsects then nsects - stsect else 0
  {
    if stsect >= nsects then []
    else [Blk(stsect, if len <= nsects - stsect then len else nsects - stsect)] + Forward(stsect + len, nsects, len)
  }

  /** The blocks of a reverse copy from `stsect` down. */
  function Backward(stsect: int, nsects: nat, len: nat): seq<Blk>
    requires len >= 1 && stsect <= nsects
    decreases stsect + len
  {
    if stsect < 0 then []
    else [Blk(stsect, if len <= nsects - stsect then len else nsects - stsect)] + Backward(stsect - len, nsects, len)
  }

  /** The blocks of a copy, in the order they are copied. */
  function BlocksOf(reverse: bool, nsects: nat, len: nat): seq<Blk>
    requires len >= 1
  {
    if reverse then
      LastBlock(nsects, len);
      Backward(nsects / len * len, nsects, len)
    else Forward(0, nsects, len)
  }

  /** The sectors of some blocks, in order. */
  function Sectors(blocks: seq<Blk>): seq<int> {
    if blocks == [] then [] else Range(blocks[0].at, blocks[0].at + blocks[0].count) + Sectors(blocks[1..])
  }

  lemma RangeJoin(lo: int, mid: int, hi: int)
    requires lo <= mid <= hi
    ensures Range(lo, mid) + Range(mid, hi) == Range(lo, hi)
  {
  }

  lemma {:induction false} ForwardCovers(stsect: nat, nsects: nat, len: nat)
    requires len >= 1 && stsect <= nsects
    ensures Sectors(Forward(stsect, nsects, len)) == Range(stsect, nsects)
    decreases nsects - stsect
  {
    if stsect < nsects {
      var n := if len <= nsects - stsect then len else nsects - stsect;
      var more := Forward(stsect + len, nsects, len);
      SectorsCons(Blk(stsect, n), more, stsect + n);
      if stsect + len <= nsects {
        ForwardCovers(stsect + len, nsects, len);
      }
      RangeJoin(stsect, stsect + n, nsects);
    }
  }

  lemma BlockAfter(more: seq<int>, below: seq<int>, mid: nat, hi: nat)
    requires mid <= hi && below == Range(0, mid) && multiset(more) == multiset(below)
    ensures multiset(Range(mid, hi) + more) == multiset(Range(0, hi))
  {
    RangeJoin(0, mid, hi);
    assert multiset(Range(0, hi)) == multiset(below + Range(mid, hi));
  }

  lemma {:induction false} BackwardCovers(stsect: int, nsects: nat, len: nat, hi: nat)
    requires len >= 1 && Lattice(stsect, len) && 0 - len <= stsect <= nsects
    requires hi == if stsect + len <= nsects then stsect + len else nsects
    ensures multiset(Sectors(Backward(stsect, nsects, len))) == multiset(Range(0, hi))
    decreases stsect + len
  {
    if stsect >= 0 {
      var more := Backward(stsect - len, nsects, len);
      BackwardCons(stsect, nsects, len, hi);
      SectorsCons(Blk(stsect, hi - stsect), more, hi);
      DownOne(stsect, len);
      BackwardCovers(stsect - len, nsects, len, stsect);
      BlockAfter(Sectors(more), Range(0, stsect), stsect, hi);
    } else {
      LatticeEnd(stsect, len);
      assert hi == 0 && Range(0, hi) == [];
    }
  }

  lemma BackwardCons(stsect: int, nsects: nat, len: nat, hi: nat)
    requires len >= 1 && 0 <= stsect <= nsects && hi == if stsect + len <= nsects then stsect + len else nsects
    ensures Backward(stsect, nsects, len) == [Blk(stsect, hi - stsect)] + Backward(stsect - len, nsects, len)
  {
  }

  lemma SectorsCons(blk: Blk, more: seq<Blk>, hi: nat)
    requires hi == blk.at + blk.count
    ensures Sectors([blk] + more) == Range(blk.at, hi) + Sectors(more)
  {
    assert ([blk] + more)[1..] == more;
  }

  /** The blocks of a copy have every sector once; going forward, in order. */
  lemma BlocksCover(reverse: bool, nsects: nat, len: nat)
    requires len >= 1
    ensures multiset(Sectors(BlocksOf(reverse, nsects, len))) == multiset(Range(0, nsects))
    ensures !reverse ==> Sectors(BlocksOf(reverse, nsects, len)) == Range(0, nsects)
  {
    if reverse {
      LastBlock(nsects, len);
      BackwardCovers(nsects / len * len, nsects, len, nsects);
    } else {
      ForwardCovers(0, nsects, len);
    }
  }

  /** The starts of blocks, and the place one block before the first. */
  ghost predicate Lattice(stsect: int, len: nat) {
    exists q :: q >= -1 && stsect == Times(q, len)
  }

  function Times(q: int, len: nat): int {
    q * len
  }

  lemma DownOne(stsect: int, len: nat)
    requires Lattice(stsect, len) && stsect >= 0 && len >= 1
    ensures Lattice(stsect - len, len) && (stsect - len >= 0 || stsect == 0)
  {
    var q :| q >= -1 && stsect == Times(q, len);
    assert Times(-1, len) == 0 - len && Times(0, len) == 0;
    assert Times(q - 1, len) == stsect - len;
    if q >= 1 {
      assert (q - 1) * len >= 0;
    }
  }

  lemma LatticeEnd(stsect: int, len: nat)
    requires Lattice(stsect, len) && stsect < 0
    ensures stsect == 0 - len
  {
    var q :| q >= -1 && stsect == Times(q, len);
    assert Times(-1, len) == 0 - len;
    assert q >= 0 ==> q * len >= 0;
  }

  lemma LastBlock(nsects: nat, len: nat)
    requires len >= 1
    ensures Lattice(nsects / len * len, len) && 0 <= nsects / len * len <= nsects < nsects / len * len + len
  {
    assert Times(nsects / len, len) == nsects / len * len;
    assert nsects == nsects / len * len + nsects % len;
  }

  // ---------------------------------------------------------------- the log of a copy

  /** The log is that of the blocks, one after the other. */
  ghost predicate CopyLog(log: seq<Entry>, writing: bool, blocks: seq<Blk>, sought: bool)
    decreases |blocks|
  {
    if blocks == [] then log == []
    else
      var init, blk := blocks[..|blocks| - 1], blocks[|blocks| - 1];
      exists k: nat, fast: bool, good: seq<bool> ::
        LastOf(log, k, writing, blk, sought, fast, good) && CopyLog(log[..k], writing, init, sought)
  }

  ghost predicate LastOf(log: seq<Entry>, k: nat, writing: bool, blk: Blk, sought: bool, fast: bool, good: seq<bool>) {
    k <= |log| && |good| == blk.count && BlockLog(log[k..], writing, blk.at, sought, fast, good)
  }

  /** How many of the sectors from `lo` up to `hi` failed in the end. */
  ghost function Failures(log: seq<Entry>, lo: int, hi: int): nat
    decreases hi - lo
  {
    if lo >= hi then 0 else Failures(log, lo, hi - 1) + if Last(log, hi - 1) == Some(false) then 1 else 0
  }

  lemma {:induction false} FailuresSplit(log: seq<Entry>, lo: int, mid: int, hi: int)
    requires lo <= mid <= hi
    ensures Failures(log, lo, hi) == Failures(log, lo, mid) + Failures(log, mid, hi)
    decreases hi - mid
  {
    if mid < hi {
      FailuresSplit(log, lo, mid, hi - 1);
    }
  }

  lemma {:induction false} FailuresSame(log: seq<Entry>, log': seq<Entry>, lo: int, hi: int)
    requires forall i :: lo <= i < hi ==> Last(log', i) == Last(log, i)
    ensures Failures(log', lo, hi) == Failures(log, lo, hi)
    decreases hi - lo
  {
    if lo < hi {
      FailuresSame(log, log', lo, hi - 1);
    }
  }

  lemma {:induction false} FailuresBlock(log: seq<Entry>, at: int, good: seq<bool>)
    requires forall i :: at <= i < at + |good| ==> Last(log, i) == Some(good[i - at])
    ensures Failures(log, at, at + |good|) == Bad(good)
  {
    if good != [] {
      var n := |good| - 1;
      FailuresBlock(log, at, good[..n]);
      assert at + |good| - 1 == at + n;
    }
  }

  /** A file whose log is that of the blocks, which are the sectors from `lo` up to `hi`. */
  ghost predicate Logged(log: seq<Entry>, errs: nat, writing: bool, blocks: seq<Blk>, sought: bool, lo: int, hi: int) {
    && CopyLog(log, writing, blocks, sought) && errs == Failures(log, lo, hi)
    && forall i :: Last(log, i).Some? <==> lo <= i < hi
  }

  /** A block's log, seen in the whole. */
  lemma AddsLast(log0: seq<Entry>, log: seq<Entry>, errs0: nat, errs: nat, writing: bool, blk: Blk, sought: bool,
                                    fast: bool, good: seq<bool>, i: int)
    requires Adds(log0, log, errs0, errs, writing, blk, sought, fast, good)
    ensures Last(log, i) == if blk.at <= i < blk.at + blk.count then Some(good[i - blk.at]) else Last(log0, i)
  {
    assert log == log0 + log[|log0|..];
    BlockLast(log[|log0|..], writing, blk.at, sought, fast, good, i);
    LastConcat(log0, log[|log0|..], i);
  }

  /** One block more, after those there are or before them. */
  lemma LoggedNext(log0: seq<Entry>, log: seq<Entry>, errs0: nat, errs: nat, writing: bool,
                                      blocks: seq<Blk>, blk: Blk, sought: bool, fast: bool, good: seq<bool>,
                                      lo: int, hi: int, lo': int, hi': int)
    requires Logged(log0, errs0, writing, blocks, sought, lo, hi) && lo <= hi && Extends(blk, lo, hi, lo', hi')
    requires Adds(log0, log, errs0, errs, writing, blk, sought, fast, good)
    ensures Logged(log, errs, writing, blocks + [blk], sought, lo', hi')
  {
    forall i
      ensures Last(log, i) == if blk.at <= i < blk.at + blk.count then Some(good[i - blk.at]) else Last(log0, i)
    {
      AddsLast(log0, log, errs0, errs, writing, blk, sought, fast, good, i);
    }
    FailuresNext(log0, log, blk, good, lo, hi, lo', hi');
    CopyLogNext(log0, log, errs0, errs, writing, blocks, blk, sought, fast, good);
  }

  /** A block next to the sectors from `lo` up to `hi`, and what they are together. */
  ghost predicate Extends(blk: Blk, lo: int, hi: int, lo': int, hi': int) {
    || (blk.at == hi && lo' == lo && hi' == hi + blk.count)
    || (blk.at + blk.count == lo && lo' == blk.at && hi' == hi)
  }

  lemma FailuresNext(log0: seq<Entry>, log: seq<Entry>, blk: Blk, good: seq<bool>,
                                        lo: int, hi: int, lo': int, hi': int)
    requires lo <= hi && Extends(blk, lo, hi, lo', hi') && |good| == blk.count
    requires forall i :: Last(log, i) == if blk.at <= i < blk.at + blk.count then Some(good[i - blk.at])
             else Last(log0, i)
    ensures Failures(log, lo', hi') == Failures(log0, lo, hi) + Bad(good)
  {
    FailuresBlock(log, blk.at, good);
    FailuresSame(log0, log, lo, hi);
    if blk.at == hi {
      FailuresSplit(log, lo, hi, hi');
    } else {
      FailuresSplit(log, lo', lo, hi);
    }
  }

  lemma CopyLogNext(log0: seq<Entry>, log: seq<Entry>, errs0: nat, errs: nat, writing: bool,
                                       blocks: seq<Blk>, blk: Blk, sought: bool, fast: bool, good: seq<bool>)
    requires CopyLog(log0, writing, blocks, sought)
    requires Adds(log0, log, errs0, errs, writing, blk, sought, fast, good)
    ensures CopyLog(log, writing, blocks + [blk], sought)
  {
    var all := blocks + [blk];
    assert all[..|all| - 1] == blocks;
    assert LastOf(log, |log0|, writing, all[|all| - 1], sought, fast, good);
  }

  // ---------------------------------------------------------------- the loops of the copy

  /** The last read and the last write of a sector went well. */
  ghost predicate Moved(src: seq<Entry>, dest: seq<Entry>, i: int) {
    Last(src, i) == Some(true) && Last(dest, i) == Some(true)
  }

  /** What holds once the sectors from `lo` up to `hi` have been dealt with. */
  ghost predicate Dealt(src: map<int, int>, dest0: map<int, int>, dest: map<int, int>, sl: seq<Entry>, dl: seq<Entry>,
                        lo: int, hi: int)
  {
    && (forall i :: lo <= i < hi && Moved(sl, dl, i) ==> Copied(src, dest, i))
    && (forall i :: !(lo <= i < hi) ==> (i in dest0 <==> i in dest) && (i in dest ==> dest[i] == dest0[i]))
  }

  lemma DealtNext(src: map<int, int>, d0: map<int, int>, d1: map<int, int>, d2: map<int, int>,
                                     sl0: seq<Entry>, dl0: seq<Entry>, sl: seq<Entry>, dl: seq<Entry>, blk: Blk,
                                     read: seq<bool>, written: seq<bool>, lo: int, hi: int, lo': int, hi': int)
    requires lo <= hi && Dealt(src, d0, d1, sl0, dl0, lo, hi) && Elsewhere(d1, d2, blk.at, blk.count)
    requires BlockCopied(src, d2, blk.at, read, written) && |read| == blk.count
    requires forall i :: Last(sl, i) == if blk.at <= i < blk.at + blk.count then Some(read[i - blk.at])
             else Last(sl0, i)
    requires forall i :: Last(dl, i) == if blk.at <= i < blk.at + blk.count then Some(written[i - blk.at])
             else Last(dl0, i)
    requires Extends(blk, lo, hi, lo', hi')
    ensures Dealt(src, d0, d2, sl, dl, lo', hi')
  {
    forall i | !(blk.at <= i < blk.at + blk.count) && lo <= i < hi && Moved(sl, dl, i)
      ensures Copied(src, d2, i)
    {
      assert Moved(sl0, dl0, i);
      assert Copied(src, d1, i);
    }
  }

  /** A copy under way: the sectors from `lo` up to `hi` have been dealt with, block by block. */
  ghost predicate Going(src: File, dest: File, s0: map<int, int>, d0: map<int, int>, blocks: seq<Blk>, sought: bool,
                        lo: int, hi: int)
    reads src, dest
  {
    && Sane(src, dest) && src.data == s0 && lo <= hi
    && Logged(src.log, src.harderrs, false, blocks, sought, lo, hi)
    && Logged(dest.log, dest.harderrs, true, blocks, sought, lo, hi)
    && Dealt(s0, d0, dest.data, src.log, dest.log, lo, hi)
  }

  /** Both devices are without fault, and the source has all the sectors. */
  ghost predicate Faultless(src: File, dest: File, nsects: nat)
    reads src
  {
    Clean(src) && Clean(dest) && Present(src.data, 0, nsects)
  }

  /** One block of the copy. */
  method CopyOne(src: File, dest: File, buf: array<int>, stsect: nat, n: nat, mustseek: bool, nsects: nat,
                 ghost d0: map<int, int>, ghost blocks: seq<Blk>, ghost lo: int, ghost hi: int,
                 ghost lo': int, ghost hi': int)
    returns (fatal: bool)
    requires n <= buf.Length && stsect + n <= nsects
    requires Going(src, dest, src.data, d0, blocks, mustseek, lo, hi) && Extends(Blk(stsect, n), lo, hi, lo', hi')
    requires Hopeful(src, dest) && InOrder(src.log, stsect, n) && InOrder(dest.log, stsect, n)
    requires !mustseek ==> src.pos == stsect && dest.pos == stsect
    modifies src, dest, buf
    ensures src.data == old(src.data) && Sane(src, dest)
    ensures !fatal ==> Going(src, dest, src.data, d0, blocks + [Blk(stsect, n)], mustseek, lo', hi')
    ensures !fatal && n > 0 ==> src.pos == stsect + n && dest.pos == stsect + n
    ensures (!fatal || Doomed(src, dest)) && (fatal || Hopeful(src, dest))
    ensures Faultless(src, dest, nsects) ==>
              !fatal && src.harderrs == old(src.harderrs) && dest.harderrs == old(dest.harderrs)
  {
    ghost var d1, sl, dl := dest.data, src.log, dest.log;
    ghost var se, de, sf, df := src.harderrs, dest.harderrs, src.fast, dest.fast;
    ghost var read, written;
    fatal, read, written := CopySects(src, dest, buf, stsect, n, mustseek);
    if !fatal {
      ghost var blk := Blk(stsect, n);
      LoggedNext(sl, src.log, se, src.harderrs, false, blocks, blk, mustseek, sf, read, lo, hi, lo', hi');
      LoggedNext(dl, dest.log, de, dest.harderrs, true, blocks, blk, mustseek, df, written, lo, hi, lo', hi');
      forall i
        ensures Last(src.log, i) == if blk.at <= i < blk.at + blk.count then Some(read[i - blk.at]) else Last(sl, i)
      {
        AddsLast(sl, src.log, se, src.harderrs, false, blk, mustseek, sf, read, i);
      }
      forall i
        ensures Last(dest.log, i) == if blk.at <= i < blk.at + blk.count then Some(written[i - blk.at]) else Last(dl, i)
      {
        AddsLast(dl, dest.log, de, dest.harderrs, true, blk, mustseek, df, written, i);
      }
      DealtNext(src.data, d0, d1, dest.data, sl, dl, src.log, dest.log, blk, read, written, lo, hi, lo', hi');
    }
  }

  /** A forward copy before the block at `stsect`: all up to `upto` is done, by the blocks `done` of `all`. */
  ghost predicate Ahead(done: seq<Blk>, all: seq<Blk>, stsect: nat, upto: int, nsects: nat, len: nat) {
    && len >= 1 && done + Forward(stsect, nsects, len) == all
    && upto == if stsect < nsects then stsect else nsects
  }

  lemma AheadStart(nsects: nat, len: nat)
    requires len >= 1
    ensures Ahead([], Forward(0, nsects, len), 0, 0, nsects, len)
  {
    assert [] + Forward(0, nsects, len) == Forward(0, nsects, len);
  }

  lemma AheadNext(a: seq<Blk>, all: seq<Blk>, stsect: nat, n: nat, upto: int, nsects: nat, len: nat)
    requires Ahead(a, all, stsect, upto, nsects, len) && stsect < nsects
    requires n == if len <= nsects - stsect then len else nsects - stsect
    ensures upto == stsect && stsect + n <= nsects
    ensures Ahead(a + [Blk(stsect, n)], all, stsect + len, upto + n, nsects, len)
  {
    Shifted(a, Blk(stsect, n), Forward(stsect + len, nsects, len));
  }

  lemma AheadEnd(done: seq<Blk>, all: seq<Blk>, stsect: nat, upto: int, nsects: nat, len: nat)
    requires Ahead(done, all, stsect, upto, nsects, len) && stsect >= nsects
    ensures upto == nsects && done == all
  {
    assert done + [] == done;
  }

  /** A forward copy with the sectors below `upto` dealt with, which is where both files are. */
  ghost predicate Forwards(src: File, dest: File, s0: map<int, int>, d0: map<int, int>, blocks: seq<Blk>, upto: int)
    reads src, dest
  {
    src.pos == upto && dest.pos == upto && Going(src, dest, s0, d0, blocks, false, 0, upto)
  }

  /** Two devices without fault have no errors to count, beyond those there were. */
  ghost predicate Flawless(clean: bool, src: File, dest: File, nsects: nat, fatal: bool, se: nat, de: nat)
    reads src, dest
  {
    !clean || (Faultless(src, dest, nsects) && !fatal && src.harderrs == se && dest.harderrs == de)
  }

  /** One turn of the forward loop. */
  method ForwardOne(src: File, dest: File, buf: array<int>, stsect: nat, nsects: nat, ghost s0: map<int, int>,
                    ghost d0: map<int, int>, ghost blocks: seq<Blk>, ghost all: seq<Blk>, ghost clean: bool,
                    ghost se: nat, ghost de: nat)
    returns (fatal: bool, ghost blocks': seq<Blk>, ghost upto: nat)
    requires stsect < nsects && nsects + buf.Length < WRAP
    requires Ahead(blocks, all, stsect, stsect, nsects, buf.Length)
    requires Forwards(src, dest, s0, d0, blocks, stsect) && Hopeful(src, dest)
    requires Flawless(clean, src, dest, nsects, false, se, de)
    modifies src, dest, buf
    ensures src.data == s0 && Sane(src, dest)
    ensures fatal || Forwards(src, dest, s0, d0, blocks', upto)
    ensures fatal || Ahead(blocks', all, stsect + buf.Length, upto, nsects, buf.Length)
    ensures (!fatal || Doomed(src, dest)) && (fatal || Hopeful(src, dest))
    ensures Flawless(clean, src, dest, nsects, fatal, se, de)
  {
    var n := SectsLeft(stsect, nsects, buf.Length);
    AheadNext(blocks, all, stsect, n, stsect, nsects, buf.Length);
    blocks', upto := blocks + [Blk(stsect, n)], stsect + n;
    assert Ahead(blocks', all, stsect + buf.Length, upto, nsects, buf.Length);
    fatal := CopyOne(src, dest, buf, stsect, n, false, nsects, d0, blocks, 0, stsect, 0, upto);
  }

  /** The loop of a forward copy, without seeking, through the blocks `all`. */
  method ForwardAll(src: File, dest: File, buf: array<int>, nsects: nat, ghost all: seq<Blk>, ghost clean: bool)
    returns (fatal: bool)
    requires nsects + buf.Length < WRAP && Ahead([], all, 0, 0, nsects, buf.Length)
    requires Forwards(src, dest, src.data, dest.data, [], 0) && Hopeful(src, dest)
    requires Flawless(clean, src, dest, nsects, false, src.harderrs, dest.harderrs)
    modifies src, dest, buf
    ensures src.data == old(src.data) && Sane(src, dest)
    ensures fatal || Going(src, dest, src.data, old(dest.data), all, false, 0, nsects)
    ensures (!fatal || Doomed(src, dest)) && (fatal || Hopeful(src, dest))
    ensures Flawless(clean, src, dest, nsects, fatal, old(src.harderrs), old(dest.harderrs))
  {
    var stsect := 0;
    ghost var s0, d0, se, de := src.data, dest.data, src.harderrs, dest.harderrs;
    ghost var upto: nat, blocks: seq<Blk> := 0, [];
    fatal := false;
    while stsect < nsects && !fatal
      invariant fatal || Ahead(blocks, all, stsect, upto, nsects, buf.Length)
      invariant fatal || Forwards(src, dest, s0, d0, blocks, upto)
      invariant src.data == s0 && Sane(src, dest) && (!fatal || Doomed(src, dest)) && (fatal || Hopeful(src, dest))
      invariant Flawless(clean, src, dest, nsects, fatal, se, de)
      decreases !fatal, nsects - stsect
    {
      fatal, blocks, upto := ForwardOne(src, dest, buf, stsect, nsects, s0, d0, blocks, all, clean, se, de);
      assert fatal || Ahead(blocks, all, stsect + buf.Length, upto, nsects, buf.Length);
      stsect := stsect + buf.Length;
    }
    if !fatal {
      AheadEnd(blocks, all, stsect, upto, nsects, buf.Length);
    }
  }

  /** The forward copy of `copyfile`. */
  method CopyForward(src: File, dest: File, buf: array<int>, nsects: nat) returns (fatal: bool)
    requires buf.Length >= 1 && nsects >= 1 && nsects + buf.Length < WRAP
    requires Going(src, dest, src.data, dest.data, [], false, 0, 0) && src.pos == 0 && dest.pos == 0
    requires Hopeful(src, dest)
    modifies src, dest, buf
    ensures src.data == old(src.data) && Sane(src, dest)
    ensures !fatal ==>
              Going(src, dest, src.data, old(dest.data), Forward(0, nsects, buf.Length), false, 0, nsects)
    ensures (!fatal || Doomed(src, dest)) && (fatal || Hopeful(src, dest))
    ensures Faultless(src, dest, nsects) ==>
              !fatal && src.harderrs == old(src.harderrs) && dest.harderrs == old(dest.harderrs)
  {
    AheadStart(nsects, buf.Length);
    fatal := ForwardAll(src, dest, buf, nsects, Forward(0, nsects, buf.Length), Faultless(src, dest, nsects));
  }

  lemma Shifted(a: seq<Blk>, blk: Blk, b: seq<Blk>)
    ensures (a + [blk]) + b == a + ([blk] + b)
  {
  }

  /** A reverse copy before the block at `stsect`: all from `from` on is done, by the blocks `done` of `all`. */
  ghost predicate Behind(done: seq<Blk>, rest: seq<Blk>, all: seq<Blk>, stsect: int, from: int, nsects: nat, len: nat) {
    && Lattice(stsect, len) && (stsect >= 0 || stsect == 0 - len) && 0 <= from <= nsects && stsect <= from
    && from == (if stsect + len < nsects then stsect + len else nsects)
    && len >= 1 && done + rest == all && rest == Backward(stsect, nsects, len)
  }

  lemma BehindStart(nsects: nat, len: nat)
    requires len >= 1
    ensures var all := BlocksOf(true, nsects, len);
            Behind([], all, all, nsects / len * len, nsects, nsects, len)
  {
    LastBlock(nsects, len);
    assert [] + BlocksOf(true, nsects, len) == BlocksOf(true, nsects, len);
  }

  lemma BehindNext(done: seq<Blk>, rest: seq<Blk>, all: seq<Blk>, stsect: nat, n: nat, from: int, nsects: nat,
                   len: nat) returns (done': seq<Blk>, rest': seq<Blk>)
    requires Behind(done, rest, all, stsect, from, nsects, len)
    requires n == if len <= nsects - stsect then len else nsects - stsect
    ensures done' == done + [Blk(stsect, n)] && stsect + n == from
    ensures Behind(done', rest', all, stsect - len, stsect, nsects, len)
  {
    done', rest' := done + [Blk(stsect, n)], Backward(stsect - len, nsects, len);
    DownOne(stsect, len);
    Shifted(done, Blk(stsect, n), rest');
  }

  lemma BehindEnd(done: seq<Blk>, rest: seq<Blk>, all: seq<Blk>, stsect: int, from: int, nsects: nat, len: nat)
    requires Behind(done, rest, all, stsect, from, nsects, len) && stsect < 0
    ensures from == 0 && done == all
  {
    assert done + [] == done;
  }

  /** One turn of the reverse loop. */
  method ReverseOne(src: File, dest: File, buf: array<int>, stsect: nat, nsects: nat, ghost s0: map<int, int>,
                    ghost d0: map<int, int>, ghost done: seq<Blk>, ghost rest: seq<Blk>, ghost all: seq<Blk>,
                    ghost from: int, ghost clean: bool, ghost se: nat, ghost de: nat)
    returns (fatal: bool, ghost done': seq<Blk>, ghost rest': seq<Blk>)
    requires 0 <= from <= nsects && nsects >= 1 && nsects + buf.Length < WRAP
    requires Behind(done, rest, all, stsect, from, nsects, buf.Length)
    requires Going(src, dest, s0, d0, done, true, from, nsects)
    requires Flawless(clean, src, dest, nsects, false, se, de)
    requires Hopeful(src, dest) && (stsect < from || (src.log == [] && dest.log == [] && stsect > 0))
    modifies src, dest, buf
    ensures src.data == s0 && Sane(src, dest) && (!fatal || Doomed(src, dest)) && (fatal || Hopeful(src, dest))
    ensures fatal || Going(src, dest, s0, d0, done', true, stsect, nsects)
    ensures fatal || Behind(done', rest', all, stsect - buf.Length, stsect, nsects, buf.Length)
    ensures Flawless(clean, src, dest, nsects, fatal, se, de)
  {
    var n := SectsLeft(stsect, nsects, buf.Length);
    done', rest' := BehindNext(done, rest, all, stsect, n, from, nsects, buf.Length);
    assert Behind(done', rest', all, stsect - buf.Length, stsect, nsects, buf.Length);
    fatal := CopyOne(src, dest, buf, stsect, n, true, nsects, d0, done, from, nsects, stsect, nsects);
  }

  /** The loop of a reverse copy, from the block at `start` down. */
  method ReverseFrom(src: File, dest: File, buf: array<int>, start: int, nsects: nat, ghost all: seq<Blk>,
                     ghost clean: bool)
    returns (fatal: bool)
    requires buf.Length >= 1 && nsects >= 1 && nsects + buf.Length < WRAP
    requires Behind([], all, all, start, nsects, nsects, buf.Length)
    requires Going(src, dest, src.data, dest.data, [], true, nsects, nsects)
    requires Hopeful(src, dest) && src.log == [] && dest.log == []
    requires Flawless(clean, src, dest, nsects, false, src.harderrs, dest.harderrs)
    modifies src, dest, buf
    ensures src.data == old(src.data) && Sane(src, dest)
    ensures fatal || Going(src, dest, src.data, old(dest.data), all, true, 0, nsects)
    ensures (!fatal || Doomed(src, dest)) && (fatal || Hopeful(src, dest))
    ensures Flawless(clean, src, dest, nsects, fatal, old(src.harderrs), old(dest.harderrs))
  {
    ghost var s0, d0, se, de := src.data, dest.data, src.harderrs, dest.harderrs;
    ghost var from, blocks: seq<Blk>, rest := nsects, [], all;
    var stsect := start;
    fatal := false;
    while stsect >= 0 && !fatal
      invariant fatal || Behind(blocks, rest, all, stsect, from, nsects, buf.Length)
      invariant fatal || Going(src, dest, s0, d0, blocks, true, from, nsects)
      invariant src.data == s0 && Sane(src, dest) && (!fatal || Doomed(src, dest)) && (fatal || Hopeful(src, dest))
      invariant Flawless(clean, src, dest, nsects, fatal, se, de)
      invariant stsect < from || (src.log == [] && dest.log == [] && stsect > 0)
      decreases !fatal, stsect + buf.Length
    {
      fatal, blocks, rest := ReverseOne(src, dest, buf, stsect, nsects, s0, d0, blocks, rest, all, from,
                                        clean, se, de);
      assert fatal || Behind(blocks, rest, all, stsect - buf.Length, stsect, nsects, buf.Length);
      from := stsect;
      stsect := stsect - buf.Length;
    }
    if !fatal {
      BehindEnd(blocks, rest, all, stsect, from, nsects, buf.Length);
    }
  }

  /** The reverse copy of `copyfile`: the first block is what is left over and may be empty. */
  method CopyReverse(src: File, dest: File, buf: array<int>, nsects: nat) returns (fatal: bool)
    requires buf.Length >= 1 && nsects >= 1 && nsects + buf.Length < WRAP
    requires Going(src, dest, src.data, dest.data, [], true, nsects, nsects)
    requires Hopeful(src, dest) && src.log == [] && dest.log == []
    modifies src, dest, buf
    ensures src.data == old(src.data) && Sane(src, dest)
    ensures !fatal ==>
              Going(src, dest, src.data, old(dest.data), BlocksOf(true, nsects, buf.Length), true, 0, nsects)
    ensures (!fatal || Doomed(src, dest)) && (fatal || Hopeful(src, dest))
    ensures Faultless(src, dest, nsects) ==>
              !fatal && src.harderrs == old(src.harderrs) && dest.harderrs == old(dest.harderrs)
  {
    BehindStart(nsects, buf.Length);
    fatal := ReverseFrom(src, dest, buf, nsects / buf.Length * buf.Length, nsects,
                         BlocksOf(true, nsects, buf.Length), Faultless(src, dest, nsects));
  }

  /**
   `copyfile` on two freshly opened files. Unless it gives up, the transfers are those of
   the blocks that make up the sectors (see `BlocksCover`), each unseeked one at the
   place where the file is; every sector whose last read and last write went well is
   copied, whatever became of the others; and the hard errors are the others.
   */
  method CopyFile(src: File, dest: File, buf: array<int>, nsects: nat, reverse: bool) returns (fatal: bool)
    requires src != dest && buf.Length >= 1 && nsects >= 1 && nsects + buf.Length < WRAP
    requires Opened(src) && Opened(dest)
    modifies src, dest, buf
    ensures src.data == old(src.data) && Genuine(src, false) && Genuine(dest, true)
    ensures InPlace(src.log) && InPlace(dest.log)
    ensures !fatal ==> CopyLog(src.log, false, BlocksOf(reverse, nsects, buf.Length), reverse)
    ensures !fatal ==> CopyLog(dest.log, true, BlocksOf(reverse, nsects, buf.Length), reverse)
    ensures !fatal ==> forall i ::
              (Last(src.log, i).Some? <==> 0 <= i < nsects) && (Last(dest.log, i).Some? <==> 0 <= i < nsects)
    ensures !fatal ==> forall i :: 0 <= i < nsects && Moved(src.log, dest.log, i) ==> Copied(src.data, dest.data, i)
    ensures !fatal ==> Elsewhere(old(dest.data), dest.data, 0, nsects)
    ensures !fatal ==> src.harderrs == Failures(src.log, 0, nsects) && dest.harderrs == Failures(dest.log, 0, nsects)
    ensures fatal <==> Hopeless(src.log, src.maxconerrs) || Hopeless(dest.log, dest.maxconerrs)
    ensures NeverBefore(src.log, src.maxconerrs, |src.log|) && NeverBefore(dest.log, dest.maxconerrs, |dest.log|)
    ensures Faultless(src, dest, nsects) ==> !fatal && src.harderrs == 0 && dest.harderrs == 0
  {
    OpenedHopes(src.log, src.maxconerrs);
    OpenedHopes(dest.log, dest.maxconerrs);
    if reverse {
      fatal := CopyReverse(src, dest, buf, nsects);
    } else {
      fatal := CopyForward(src, dest, buf, nsects);
    }
    Verdict(src, dest, fatal);
  }

  /** A copy stops exactly when one of the logs leaves no hope. */
  lemma Verdict(src: File, dest: File, fatal: bool)
    requires (!fatal || Doomed(src, dest)) && (fatal || Hopeful(src, dest))
    ensures fatal <==> Hopeless(src.log, src.maxconerrs) || Hopeless(dest.log, dest.maxconerrs)
    ensures NeverBefore(src.log, src.maxconerrs, |src.log|) && NeverBefore(dest.log, dest.maxconerrs, |dest.log|)
  {
    if Hoping(src) {
      HopesNow(src.log, src.maxconerrs, src.fast, CountersOf(src));
    }
    if Hoping(dest) {
      HopesNow(dest.log, dest.maxconerrs, dest.fast, CountersOf(dest));
    }
  }

  /** No failure in the end means that every transfer that counts went well. */
  lemma {:induction false} NoFailures(log: seq<Entry>, lo: int, hi: int, i: int)
    requires lo <= i < hi && Last(log, i).Some? && Failures(log, lo, hi) == 0
    ensures Last(log, i) == Some(true)
    decreases hi - lo
  {
    if i < hi - 1 {
      NoFailures(log, lo, hi - 1, i);
    } else {
      var v := Last(log, i).value;
      assert Last(log, i) == Some(v);
    }
  }

  /** A run that counts no hard error has made an exact copy. */
  lemma CleanExit(sl: seq<Entry>, dl: seq<Entry>, src: map<int, int>, dest: map<int, int>, nsects: nat)
    requires forall i :: 0 <= i < nsects ==> Last(sl, i).Some? && Last(dl, i).Some?
    requires forall i :: 0 <= i < nsects && Moved(sl, dl, i) ==> Copied(src, dest, i)
    requires Failures(sl, 0, nsects) == 0 && Failures(dl, 0, nsects) == 0
    ensures forall i :: 0 <= i < nsects ==> Copied(src, dest, i)
  {
    forall i | 0 <= i < nsects
      ensures Copied(src, dest, i)
    {
      NoFailures(sl, 0, nsects, i);
      NoFailures(dl, 0, nsects, i);
      assert Moved(sl, dl, i);
    }
  }
}
