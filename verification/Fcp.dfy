/**
 `fcp`: workers that copy a file block by block, each taking the next offset under a
 lock. A run is any interleaving of their steps.
 */
module Fcp {

  /** Where a worker is: about to take an offset, to read, to write, or gone. */
  datatype Worker =
    | Idle
    | Reading(o: nat, done: nat, buf: seq<int>)
    | Writing(o: nat, done: nat, buf: seq<int>, n: nat)
    | Finished

  /**
   The shared state: the next offset, the bytes written so far, who took each block, the
   workers, and who wrote where.
   */
  datatype State = State(off: nat, dst: map<int, int>, claims: seq<nat>, ws: seq<Worker>, log: seq<Wrote>)

  /** A write of `n` bytes at `o` by worker `w`. */
  datatype Wrote = Wrote(w: nat, o: nat, n: nat)

  /** A step of worker `w`; a read says how many bytes it got. */
  datatype Event = Claim(w: nat) | Read(w: nat, n: nat) | Write(w: nat)

  /** The copy of a stretch of a file. */
  function Patch(dst: map<int, int>, at: int, data: seq<int>): (r: map<int, int>)
    ensures forall i :: i in r <==> i in dst || at <= i < at + |data|
    ensures forall i :: i in r ==> r[i] == if at <= i < at + |data| then data[i - at] else dst[i]
  {
    if data == [] then dst
    else Patch(dst, at, data[..|data| - 1])[at + |data| - 1 := data[|data| - 1]]
  }

  /** How many bytes of the file a buffer of length `len` can get at `o`. */
  function Available(src: seq<int>, o: nat, len: nat): nat {
    if o >= |src| then 0 else if len <= |src| - o then len else |src| - o
  }

  /** A read returns something unless the file ends there, and never more than there is. */
  predicate Enabled(src: seq<int>, b: nat, s: State, e: Event) {
    && e.w < |s.ws|
    && match e
       case Claim(w) => s.ws[w].Idle?
       case Read(w, n) =>
         s.ws[w].Reading? && s.ws[w].done < b && |s.ws[w].buf| == b
         && n <= Available(src, s.ws[w].o, b - s.ws[w].done)
         && (n == 0 ==> s.ws[w].o >= |src|)
       case Write(w) => s.ws[w].Writing? && s.ws[w].n <= |s.ws[w].buf|
  }

  /** A read that is short only at the end of the file. */
  predicate Full(src: seq<int>, b: nat, s: State, e: Event)
    requires Enabled(src, b, s, e)
  {
    e.Read? ==> e.n == Available(src, s.ws[e.w].o, b - s.ws[e.w].done)
  }

  /** The part of the buffer from `done` on is filled from the file. */
  function Filled(src: seq<int>, buf: seq<int>, done: nat, o: nat, n: nat): (r: seq<int>)
    requires done + n <= |buf| && o + n <= |src|
    ensures |r| == |buf|
  {
    buf[..done] + src[o..o + n] + buf[done + n..]
  }

  /**
   What a step does. A write takes its bytes from the start of the buffer, wherever the
   last read put them.
   */
  function Next(src: seq<int>, b: nat, s: State, e: Event): State
    requires Enabled(src, b, s, e)
  {
    match e
    case Claim(w) =>
      s.(off := s.off + b, claims := s.claims + [w], ws := s.ws[w := Reading(s.off, 0, seq(b, _ => 0))])
    case Read(w, n) =>
      var v := s.ws[w];
      if n == 0 then s.(ws := s.ws[w := Finished])
      else s.(ws := s.ws[w := Writing(v.o, v.done, Filled(src, v.buf, v.done, v.o, n), n)])
    case Write(w) =>
      var v := s.ws[w];
      var done := v.done + v.n;
      s.(dst := Patch(s.dst, v.o, v.buf[..v.n]), log := s.log + [Wrote(w, v.o, v.n)],
         ws := s.ws[w := if done >= b then Idle else Reading(v.o + v.n, done, v.buf)])
  }

  /** The worker that a step of a worker is about is all that decides whether it is possible. */
  lemma OwnMatter(src: seq<int>, b: nat, s: State, t: State, e: Event)
    requires e.w < |s.ws| && e.w < |t.ws| && s.ws[e.w] == t.ws[e.w]
    ensures Enabled(src, b, s, e) <==> Enabled(src, b, t, e)
  {
  }

  /** What one worker does neither enables nor disables a step of another. */
  lemma NeverInTheWay(src: seq<int>, b: nat, s: State, d: Event, e: Event)
    requires Enabled(src, b, s, d) && d.w != e.w
    ensures Enabled(src, b, Next(src, b, s, d), e) <==> Enabled(src, b, s, e)
  {
  }

  function Start(workers: nat): State {
    State(0, map[], [], seq(workers, _ => Idle), [])
  }

  /** A run whose every step is possible, and whose reads are short only at the end. */
  ghost predicate Runs(src: seq<int>, b: nat, s: State, es: seq<Event>, s': State)
    decreases |es|
  {
    if es == [] then s == s'
    else Enabled(src, b, s, es[0]) && Full(src, b, s, es[0]) && Runs(src, b, Next(src, b, s, es[0]), es[1..], s')
  }

  /** A run with reads of any length. */
  ghost predicate Reaches(src: seq<int>, b: nat, s: State, es: seq<Event>, s': State)
    decreases |es|
  {
    if es == [] then s == s'
    else Enabled(src, b, s, es[0]) && Reaches(src, b, Next(src, b, s, es[0]), es[1..], s')
  }

  /** In every block all bytes are the same. */
  ghost predicate Constant(src: seq<int>, b: nat) {
    b > 0 && forall i :: 0 <= i < |src| ==> 0 <= i / b * b < |src| && src[i] == src[i / b * b]
  }

  // ---------------------------------------------------------------- what every step keeps

  /** The bytes of the file from `lo` up to `hi` have been written. */
  ghost predicate Written(src: seq<int>, s: State, lo: int, hi: int) {
    forall i :: lo <= i < hi && 0 <= i < |src| ==> i in s.dst
  }

  /**
   Worker `w` is on block `k`, and its buffer holds what it has read of the block. Unless
   reads of any length are allowed (`any`), only the end of the file stops a read short.
   */
  ghost predicate OnBlock(src: seq<int>, b: nat, any: bool, s: State, w: nat, k: nat) {
    && w < |s.ws| && k < |s.claims| && s.claims[k] == w
    && match s.ws[w]
       case Reading(o, done, buf) =>
         && |buf| == b && done < b && o == k * b + done && Written(src, s, k * b, o)
         && (done > 0 ==> o <= |src| && buf[..done] == src[k * b..o] && (any || o == |src|))
       case Writing(o, done, buf, n) =>
         && |buf| == b && o == k * b + done && 0 < n && done + n <= b && o + n <= |src| && Written(src, s, k * b, o)
         && buf[..done + n] == src[k * b..o + n] && (any || (done == 0 && n == Available(src, o, b)))
       case _ => false
  }

  /** A write that is on record lies in one block, and its worker took that block. */
  ghost predicate Owned(b: nat, s: State, e: Wrote) {
    exists k: nat :: k < |s.claims| && s.claims[k] == e.w && k * b <= e.o && e.o + e.n <= k * b + b
  }

  /** Block `k` is completely written, or its claimant is still at it. */
  ghost predicate Accounted(src: seq<int>, b: nat, any: bool, s: State, k: nat) {
    k < |s.claims| && (Written(src, s, k * b, k * b + b) || OnBlock(src, b, any, s, s.claims[k], k))
  }

  /** A worker that is not idle or gone is on a block; one that is gone saw the end of the file. */
  ghost predicate Placed(src: seq<int>, b: nat, any: bool, s: State, w: nat) {
    w < |s.ws| &&
    match s.ws[w]
    case Idle => true
    case Finished => |s.claims| * b >= |src|
    case _ => exists k: nat :: OnBlock(src, b, any, s, w, k)
  }

  /** With reads of any length the file has to be constant in each block. */
  ghost predicate Inv(src: seq<int>, b: nat, any: bool, s: State) {
    && b > 0 && (any ==> Constant(src, b)) && s.off == |s.claims| * b
    && (forall i :: i in s.dst ==> 0 <= i < |src| && s.dst[i] == src[i])
    && (forall k: nat :: k < |s.claims| ==> Accounted(src, b, any, s, k))
    && (forall w: nat :: w < |s.ws| ==> Placed(src, b, any, s, w))
    && (forall m :: 0 <= m < |s.log| ==> s.log[m].n > 0 && Owned(b, s, s.log[m]))
  }

  lemma Cancel(j: nat, k: nat, b: nat)
    requires b > 0 && j * b == k * b
    ensures j == k
  {
    if j < k {
      Apart(j, k, b);
    }
    if k < j {
      Apart(k, j, b);
    }
  }

  lemma Apart(j: nat, k: nat, b: nat)
    requires j < k
    ensures j * b + b <= k * b
  {
    assert (k - j) * b == k * b - j * b;
    assert (k - j - 1) * b >= 0;
    assert (k - j) * b == (k - j - 1) * b + b;
  }

  /** A worker is on one block only. */
  lemma OneBlock(src: seq<int>, b: nat, any: bool, s: State, w: nat, j: nat, k: nat)
    requires b > 0 && OnBlock(src, b, any, s, w, j) && OnBlock(src, b, any, s, w, k)
    ensures j == k
  {
    Cancel(j, k, b);
  }

  /** What other workers do leaves a worker where it is. */
  ghost predicate Grows(s: State, s': State) {
    && |s.claims| <= |s'.claims| && s'.claims[..|s.claims|] == s.claims && |s'.ws| == |s.ws|
    && forall i :: i in s.dst ==> i in s'.dst
  }

  lemma OnBlockKept(src: seq<int>, b: nat, any: bool, s: State, s': State, w: nat, k: nat)
    requires OnBlock(src, b, any, s, w, k) && Grows(s, s') && s'.ws[w] == s.ws[w]
    ensures OnBlock(src, b, any, s', w, k)
  {
    assert s'.claims[k] == s'.claims[..|s.claims|][k];
  }

  lemma OwnedKept(b: nat, s: State, s': State, e: Wrote)
    requires Owned(b, s, e) && Grows(s, s')
    ensures Owned(b, s', e)
  {
    var k: nat :| k < |s.claims| && s.claims[k] == e.w && k * b <= e.o && e.o + e.n <= k * b + b;
    assert s'.claims[k] == s'.claims[..|s.claims|][k];
  }

  /** All but worker `w` and block `k` are as before. */
  lemma OthersKept(src: seq<int>, b: nat, any: bool, s: State, s': State, w: nat, k: nat)
    requires Inv(src, b, any, s) && Grows(s, s') && w < |s.ws|
    requires forall v: nat :: v < |s.ws| && v != w ==> s'.ws[v] == s.ws[v]
    requires forall j: nat :: OnBlock(src, b, any, s, w, j) ==> j == k
    ensures forall j: nat :: j < |s.claims| && j != k ==> Accounted(src, b, any, s', j)
    ensures forall v: nat :: v < |s.ws| && v != w ==> Placed(src, b, any, s', v)
    ensures forall m :: 0 <= m < |s.log| ==> Owned(b, s', s.log[m])
  {
    forall j: nat | j < |s.claims| && j != k
      ensures Accounted(src, b, any, s', j)
    {
      assert Accounted(src, b, any, s, j);
      assert s'.claims[j] == s'.claims[..|s.claims|][j];
      var v := s.claims[j];
      if OnBlock(src, b, any, s, v, j) {
        OnBlockKept(src, b, any, s, s', v, j);
      } else {
        assert Written(src, s', j * b, j * b + b);
      }
    }
    forall v: nat | v < |s.ws| && v != w
      ensures Placed(src, b, any, s', v)
    {
      assert Placed(src, b, any, s, v);
      if s.ws[v].Finished? {
        assert |s.claims| * b <= |s'.claims| * b by { Scale(|s.claims|, |s'.claims|, b); }
      } else if !s.ws[v].Idle? {
        var j: nat :| OnBlock(src, b, any, s, v, j);
        OnBlockKept(src, b, any, s, s', v, j);
      }
    }
    forall m | 0 <= m < |s.log|
      ensures Owned(b, s', s.log[m])
    {
      OwnedKept(b, s, s', s.log[m]);
    }
  }

  lemma Scale(j: nat, k: nat, b: nat)
    requires j <= k
    ensures j * b <= k * b
  {
    assert (k - j) * b == k * b - j * b;
  }

  lemma ClaimKeeps(src: seq<int>, b: nat, any: bool, s: State, w: nat)
    requires Inv(src, b, any, s) && Enabled(src, b, s, Claim(w))
    ensures Inv(src, b, any, Next(src, b, s, Claim(w)))
  {
    var s' := Next(src, b, s, Claim(w));
    var k := |s.claims|;
    assert s'.claims[..k] == s.claims;
    OthersKept(src, b, any, s, s', w, k);
    assert (k + 1) * b == k * b + b;
    assert OnBlock(src, b, any, s', w, k);
    assert Accounted(src, b, any, s', k);
  }

  /** What a read adds to the buffer. */
  lemma FilledPrefix(src: seq<int>, buf: seq<int>, start: nat, done: nat, o: nat, n: nat)
    requires done + n <= |buf| && o == start + done && o + n <= |src| && (done > 0 ==> buf[..done] == src[start..o])
    ensures Filled(src, buf, done, o, n)[..done + n] == src[start..o + n]
  {
    assert buf[..done] == src[start..o];
    assert src[start..o + n] == src[start..o] + src[o..o + n];
  }

  lemma ReadKeeps(src: seq<int>, b: nat, any: bool, s: State, w: nat, n: nat)
    requires Inv(src, b, any, s) && Enabled(src, b, s, Read(w, n)) && (any || Full(src, b, s, Read(w, n)))
    ensures Inv(src, b, any, Next(src, b, s, Read(w, n)))
  {
    var s' := Next(src, b, s, Read(w, n));
    assert Placed(src, b, any, s, w);
    var k: nat :| OnBlock(src, b, any, s, w, k);
    forall j: nat | OnBlock(src, b, any, s, w, j)
      ensures j == k
    {
      OneBlock(src, b, any, s, w, j, k);
    }
    OthersKept(src, b, any, s, s', w, k);
    if n == 0 {
      assert Written(src, s', k * b, k * b + b);
      Apart(k, k + 1, b);
      Scale(k + 1, |s.claims|, b);
    } else {
      FilledPrefix(src, s.ws[w].buf, k * b, s.ws[w].done, s.ws[w].o, n);
      assert OnBlock(src, b, any, s', w, k);
    }
    assert Accounted(src, b, any, s', k);
  }

  /** A byte of block `k` is its first byte, if the file is constant in each block. */
  lemma SameInBlock(src: seq<int>, b: nat, k: nat, i: nat)
    requires Constant(src, b) && k * b <= i < k * b + b && i < |src|
    ensures src[i] == src[k * b]
  {
    BlockNumber(i, k, b);
  }

  lemma BlockNumber(i: nat, k: nat, b: nat)
    requires b > 0 && k * b <= i < k * b + b
    ensures i / b == k
  {
    var q := i / b;
    assert i == q * b + i % b;
    if q < k {
      Apart(q, k, b);
    }
    if q > k {
      Apart(k, q, b);
    }
  }

  /** What a write puts down is right: it is what was read, or the block is all the same. */
  lemma WriteRight(src: seq<int>, b: nat, any: bool, s: State, w: nat, k: nat, i: nat)
    requires Inv(src, b, any, s) && OnBlock(src, b, any, s, w, k) && s.ws[w].Writing?
    requires s.ws[w].o <= i < s.ws[w].o + s.ws[w].n
    ensures i < |src| && s.ws[w].buf[..s.ws[w].n][i - s.ws[w].o] == src[i]
  {
    var v := s.ws[w];
    var j := i - v.o;
    assert v.buf[..v.done + v.n][j] == src[k * b..v.o + v.n][j] == src[k * b + j];
    if v.done > 0 {
      SameInBlock(src, b, k, i);
      SameInBlock(src, b, k, k * b + j);
    }
  }

  lemma OwnsBlock(b: nat, s: State, k: nat, e: Wrote)
    requires k < |s.claims| && s.claims[k] == e.w && k * b <= e.o && e.o + e.n <= k * b + b
    ensures Owned(b, s, e)
  {
  }

  lemma WriteData(src: seq<int>, b: nat, any: bool, s: State, s': State, w: nat, k: nat)
    requires Inv(src, b, any, s) && OnBlock(src, b, any, s, w, k) && s.ws[w].Writing?
    requires s'.dst == Patch(s.dst, s.ws[w].o, s.ws[w].buf[..s.ws[w].n])
    ensures forall i :: i in s'.dst ==> 0 <= i < |src| && s'.dst[i] == src[i]
    ensures Written(src, s', k * b, s.ws[w].o + s.ws[w].n) && forall i :: i in s.dst ==> i in s'.dst
  {
    var v := s.ws[w];
    forall i | v.o <= i < v.o + v.n
      ensures 0 <= i < |src| && i in s'.dst && s'.dst[i] == src[i]
    {
      WriteRight(src, b, any, s, w, k, i);
    }
  }

  lemma WriteKeeps(src: seq<int>, b: nat, any: bool, s: State, w: nat)
    requires Inv(src, b, any, s) && Enabled(src, b, s, Write(w))
    ensures Inv(src, b, any, Next(src, b, s, Write(w)))
  {
    var s' := Next(src, b, s, Write(w));
    assert Placed(src, b, any, s, w);
    var k: nat :| OnBlock(src, b, any, s, w, k);
    forall j: nat | OnBlock(src, b, any, s, w, j)
      ensures j == k
    {
      OneBlock(src, b, any, s, w, j, k);
    }
    var v := s.ws[w];
    WriteData(src, b, any, s, s', w, k);
    OthersKept(src, b, any, s, s', w, k);
    OwnsBlock(b, s', k, Wrote(w, v.o, v.n));
    WriterNext(src, b, any, s, s', w, k);
  }

  /** After its write the worker goes on with the block, or the block is done. */
  lemma WriterNext(src: seq<int>, b: nat, any: bool, s: State, s': State, w: nat, k: nat)
    requires Enabled(src, b, s, Write(w)) && OnBlock(src, b, any, s, w, k) && s' == Next(src, b, s, Write(w))
    requires Written(src, s', k * b, s.ws[w].o + s.ws[w].n)
    ensures Accounted(src, b, any, s', k) && Placed(src, b, any, s', w)
  {
    var v := s.ws[w];
    if v.done + v.n < b {
      assert OnBlock(src, b, any, s', w, k);
    }
  }

  lemma StepKeeps(src: seq<int>, b: nat, any: bool, s: State, e: Event)
    requires Inv(src, b, any, s) && Enabled(src, b, s, e) && (any || Full(src, b, s, e))
    ensures Inv(src, b, any, Next(src, b, s, e))
  {
    match e {
      case Claim(w) => ClaimKeeps(src, b, any, s, w);
      case Read(w, n) => ReadKeeps(src, b, any, s, w, n);
      case Write(w) => WriteKeeps(src, b, any, s, w);
    }
  }

  lemma {:induction false} RunKeeps(src: seq<int>, b: nat, s: State, es: seq<Event>, s': State)
    requires Inv(src, b, false, s) && Runs(src, b, s, es, s')
    ensures Inv(src, b, false, s') && |s'.ws| == |s.ws|
    decreases |es|
  {
    if es != [] {
      StepKeeps(src, b, false, s, es[0]);
      RunKeeps(src, b, Next(src, b, s, es[0]), es[1..], s');
    }
  }

  lemma {:induction false} ReachKeeps(src: seq<int>, b: nat, s: State, es: seq<Event>, s': State)
    requires Inv(src, b, true, s) && Reaches(src, b, s, es, s')
    ensures Inv(src, b, true, s') && |s'.ws| == |s.ws|
    decreases |es|
  {
    if es != [] {
      StepKeeps(src, b, true, s, es[0]);
      ReachKeeps(src, b, Next(src, b, s, es[0]), es[1..], s');
    }
  }

  // ---------------------------------------------------------------- the copy is right

  /** The file as a map from offsets to bytes. */
  ghost predicate IsCopy(src: seq<int>, dst: map<int, int>) {
    (forall i :: i in dst <==> 0 <= i < |src|) && forall i :: i in dst ==> dst[i] == src[i]
  }

  ghost predicate AllGone(s: State) {
    forall w :: 0 <= w < |s.ws| ==> s.ws[w].Finished?
  }

  /** Two writes that touch the same block of `b` bytes. */
  ghost predicate SameBlock(b: nat, d: Wrote, e: Wrote) {
    exists i: nat, j: nat :: d.o <= i < d.o + d.n && e.o <= j < e.o + e.n && b > 0 && i / b == j / b
  }

  lemma BlockOf(i: nat, b: nat, m: nat)
    requires b > 0 && i < m * b
    ensures var k := i / b; 0 <= k < m && k * b <= i < k * b + b
  {
    var k := i / b;
    assert i == k * b + i % b;
    if k >= m {
      Scale(m, k, b);
    }
  }

  /** When all workers are gone, every block has been written. */
  lemma GoneCopied(src: seq<int>, b: nat, any: bool, s: State)
    requires Inv(src, b, any, s) && AllGone(s) && |s.ws| > 0
    ensures IsCopy(src, s.dst) && s.off == |s.claims| * b >= |src|
  {
    assert Placed(src, b, any, s, 0);
    forall i | 0 <= i < |src|
      ensures i in s.dst
    {
      BlockOf(i, b, |s.claims|);
      var k := i / b;
      assert Accounted(src, b, any, s, k);
      assert Written(src, s, k * b, k * b + b);
    }
  }

  /** All that was ever written to a block was written by one worker, the one that took it. */
  lemma OneWriter(src: seq<int>, b: nat, any: bool, s: State, m: nat, n: nat)
    requires Inv(src, b, any, s) && m < |s.log| && n < |s.log| && SameBlock(b, s.log[m], s.log[n])
    ensures s.log[m].w == s.log[n].w
  {
    var d, e := s.log[m], s.log[n];
    assert Owned(b, s, d) && Owned(b, s, e);
    var i: nat, j: nat :| d.o <= i < d.o + d.n && e.o <= j < e.o + e.n && i / b == j / b;
    var k: nat :| k < |s.claims| && s.claims[k] == d.w && k * b <= d.o && d.o + d.n <= k * b + b;
    var l: nat :| l < |s.claims| && s.claims[l] == e.w && l * b <= e.o && e.o + e.n <= l * b + b;
    BlockNumber(i, k, b);
    BlockNumber(j, l, b);
  }

  /**
   When all workers are gone the destination is the source, whatever the order of their
   steps, if reads are short only at the end of the file; and each block was written by
   one worker alone.
   */
  lemma CopyIsExact(src: seq<int>, b: nat, workers: nat, es: seq<Event>, s: State)
    requires b > 0 && workers > 0 && Runs(src, b, Start(workers), es, s) && AllGone(s)
    ensures IsCopy(src, s.dst)
    ensures s.off == |s.claims| * b >= |src|
    ensures forall m, n :: 0 <= m < |s.log| && 0 <= n < |s.log| && SameBlock(b, s.log[m], s.log[n]) ==>
                             s.log[m].w == s.log[n].w
  {
    RunKeeps(src, b, Start(workers), es, s);
    GoneCopied(src, b, false, s);
    forall m, n | 0 <= m < |s.log| && 0 <= n < |s.log| && SameBlock(b, s.log[m], s.log[n])
      ensures s.log[m].w == s.log[n].w
    {
      OneWriter(src, b, false, s, m, n);
    }
  }

  /** In every run a worker that is not gone has a step to take, whatever the others do. */
  lemma AlwaysAStep(src: seq<int>, b: nat, workers: nat, es: seq<Event>, s: State, w: nat) returns (e: Event)
    requires b > 0 && workers > 0 && Runs(src, b, Start(workers), es, s) && w < |s.ws| && !s.ws[w].Finished?
    ensures e.w == w && Enabled(src, b, s, e) && Full(src, b, s, e)
  {
    RunKeeps(src, b, Start(workers), es, s);
    assert Placed(src, b, false, s, w);
    match s.ws[w]
    case Idle => e := Claim(w);
    case Reading(o, done, _) => e := Read(w, Available(src, o, b - done));
    case Writing(_, _, _, _) => e := Write(w);
  }

  lemma RunsStep(src: seq<int>, b: nat, s: State, e: Event, es: seq<Event>, s': State)
    requires Enabled(src, b, s, e) && Full(src, b, s, e) && Runs(src, b, Next(src, b, s, e), es, s')
    ensures Runs(src, b, s, [e] + es, s')
  {
    assert ([e] + es)[1..] == es;
  }

  /** A worker that is idle can go on to the end of the file. */
  lemma {:induction false} CanFinish(src: seq<int>, b: nat, s: State) returns (es: seq<Event>, s': State)
    requires b > 0 && |s.ws| == 1 && s.ws[0].Idle?
    ensures Runs(src, b, s, es, s') && s'.ws == [Finished]
    decreases if s.off < |src| then |src| - s.off else 0
  {
    var s1 := Next(src, b, s, Claim(0));
    var n := Available(src, s.off, b);
    var s2 := Next(src, b, s1, Read(0, n));
    if n == 0 {
      s' := s2;
      es := [];
    } else {
      var s3 := Next(src, b, s2, Write(0));
      if n == b {
        es, s' := CanFinish(src, b, s3);
      } else {
        s' := Next(src, b, s3, Read(0, 0));
        es := [];
        RunsStep(src, b, s3, Read(0, 0), es, s');
        es := [Read(0, 0)] + es;
      }
      RunsStep(src, b, s2, Write(0), es, s');
      es := [Write(0)] + es;
    }
    RunsStep(src, b, s1, Read(0, n), es, s');
    es := [Read(0, n)] + es;
    RunsStep(src, b, s, Claim(0), es, s');
    es := [Claim(0)] + es;
  }

  /** For every file there is a run that copies it. */
  lemma CopyHappens(src: seq<int>, b: nat) returns (es: seq<Event>, s: State)
    requires b > 0
    ensures Runs(src, b, Start(1), es, s) && s.ws == [Finished] && IsCopy(src, s.dst)
  {
    es, s := CanFinish(src, b, Start(1));
    CopyIsExact(src, b, 1, es, s);
  }

  // ---------------------------------------------------------------- reads of any length

  lemma {:induction false} ReachesMore(src: seq<int>, b: nat, s: State, es: seq<Event>, s1: State, e: Event)
    requires Reaches(src, b, s, es, s1) && Enabled(src, b, s1, e)
    ensures Reaches(src, b, s, es + [e], Next(src, b, s1, e))
    decreases |es|
  {
    var all := es + [e];
    if es == [] {
      assert all[1..] == [];
    } else {
      assert all[0] == es[0] && all[1..] == es[1..] + [e];
      ReachesMore(src, b, Next(src, b, s, es[0]), es[1..], s1, e);
    }
  }

  /** Worker 0 has read and written the first `done` bytes of the block at `start`, one by one. */
  ghost predicate Bytewise(src: seq<int>, b: nat, s: State, start: nat, done: nat) {
    && |s.ws| > 0 && s.ws[0].Reading? && s.ws[0].done == done < b && s.ws[0].o == start + done && |s.ws[0].buf| == b
    && start < |src| && (done > 0 ==> s.ws[0].buf[0] == src[start])
  }

  /** The bytes below `hi` are there, each as the first of its block. */
  ghost predicate Smeared(src: seq<int>, b: nat, dst: map<int, int>, hi: nat) {
    b > 0 && forall i :: 0 <= i < hi && i < |src| ==> i in dst && 0 <= i / b * b < |src| && dst[i] == src[i / b * b]
  }

  /** The other workers have not begun. */
  ghost predicate Waiting(s: State, from: nat) {
    from <= |s.ws| && forall w :: from <= w < |s.ws| ==> s.ws[w].Idle?
  }

  /** What one byte read and written does to the state. */
  lemma OneByteState(src: seq<int>, b: nat, s: State, k: nat, start: nat, done: nat) returns (s1: State, s': State)
    requires start == k * b && Bytewise(src, b, s, start, done) && start + done < |src|
    requires Smeared(src, b, s.dst, start + done) && Waiting(s, 1)
    ensures Enabled(src, b, s, Read(0, 1)) && s1 == Next(src, b, s, Read(0, 1))
    ensures Enabled(src, b, s1, Write(0)) && s' == Next(src, b, s1, Write(0))
    ensures s'.off == s.off && |s'.ws| == |s.ws| && Waiting(s', 1) && Smeared(src, b, s'.dst, start + done + 1)
    ensures if done + 1 == b then s'.ws[0].Idle? else Bytewise(src, b, s', start, done + 1)
  {
    s1 := Next(src, b, s, Read(0, 1));
    assert s1.ws[0].buf[0] == src[start];
    s' := Next(src, b, s1, Write(0));
    BlockNumber(start + done, k, b);
  }

  /** One byte read and written. */
  lemma OneByte(src: seq<int>, b: nat, s0: State, es: seq<Event>, s: State, k: nat, start: nat, done: nat)
    returns (es': seq<Event>, s': State)
    requires Reaches(src, b, s0, es, s) && start == k * b && Bytewise(src, b, s, start, done) && start + done < |src|
    requires Smeared(src, b, s.dst, start + done) && Waiting(s, 1)
    ensures Reaches(src, b, s0, es', s') && s'.off == s.off && |s'.ws| == |s.ws| && Waiting(s', 1)
    ensures Smeared(src, b, s'.dst, start + done + 1)
    ensures if done + 1 == b then s'.ws[0].Idle? else Bytewise(src, b, s', start, done + 1)
  {
    var s1;
    s1, s' := OneByteState(src, b, s, k, start, done);
    ReachesMore(src, b, s0, es, s, Read(0, 1));
    ReachesMore(src, b, s0, es + [Read(0, 1)], s1, Write(0));
    es' := es + [Read(0, 1)] + [Write(0)];
  }

  /** A block of the file, byte by byte. */
  lemma {:induction false} BlockByBytes(src: seq<int>, b: nat, s0: State, es: seq<Event>, s: State, k: nat,
                                        start: nat, done: nat)
    returns (es': seq<Event>, s': State)
    requires Reaches(src, b, s0, es, s) && start == k * b && Bytewise(src, b, s, start, done) && start + done <= |src|
    requires Smeared(src, b, s.dst, start + done) && Waiting(s, 1)
    ensures Reaches(src, b, s0, es', s') && s'.off == s.off && |s'.ws| == |s.ws| && Waiting(s', 1)
    ensures Smeared(src, b, s'.dst, start + b)
    ensures s'.ws[0].Idle? || (s'.ws[0].Finished? && start + b > |src|)
    decreases b - done
  {
    if start + done == |src| {
      ReachesMore(src, b, s0, es, s, Read(0, 0));
      s' := Next(src, b, s, Read(0, 0));
      es' := es + [Read(0, 0)];
    } else {
      es', s' := OneByte(src, b, s0, es, s, k, start, done);
      if done + 1 < b {
        es', s' := BlockByBytes(src, b, s0, es', s', k, start, done + 1);
      }
    }
  }

  /** The whole file, byte by byte, by worker 0. */
  lemma {:induction false} FileByBytes(src: seq<int>, b: nat, s0: State, es: seq<Event>, s: State, k: nat)
    returns (es': seq<Event>, s': State)
    requires b > 0 && Reaches(src, b, s0, es, s) && |s.ws| > 0 && s.ws[0].Idle? && Waiting(s, 1)
    requires s.off == k * b && Smeared(src, b, s.dst, s.off)
    ensures Reaches(src, b, s0, es', s') && |s'.ws| == |s.ws| && s'.ws[0].Finished? && Waiting(s', 1)
    ensures Smeared(src, b, s'.dst, |src|) && s'.off >= |src|
    decreases if s.off < |src| then |src| - s.off else 0
  {
    ReachesMore(src, b, s0, es, s, Claim(0));
    var s1 := Next(src, b, s, Claim(0));
    var es1 := es + [Claim(0)];
    if s.off >= |src| {
      ReachesMore(src, b, s0, es1, s1, Read(0, 0));
      s' := Next(src, b, s1, Read(0, 0));
      es' := es1 + [Read(0, 0)];
    } else {
      es', s' := BlockByBytes(src, b, s0, es1, s1, k, s.off, 0);
      if s'.ws[0].Idle? {
        assert (k + 1) * b == k * b + b;
        es', s' := FileByBytes(src, b, s0, es', s', k + 1);
      }
    }
  }

  /** The other workers find nothing left to do. */
  lemma {:induction false} OthersLeave(src: seq<int>, b: nat, s0: State, es: seq<Event>, s: State, w: nat)
    returns (es': seq<Event>, s': State)
    requires b > 0 && Reaches(src, b, s0, es, s) && Waiting(s, w) && s.off >= |src|
    requires forall v :: 0 <= v < w ==> s.ws[v].Finished?
    ensures Reaches(src, b, s0, es', s') && AllGone(s') && s'.dst == s.dst
    decreases |s.ws| - w
  {
    if w == |s.ws| {
      es', s' := es, s;
    } else {
      ReachesMore(src, b, s0, es, s, Claim(w));
      var s1 := Next(src, b, s, Claim(w));
      ReachesMore(src, b, s0, es + [Claim(w)], s1, Read(w, 0));
      var s2 := Next(src, b, s1, Read(w, 0));
      es', s' := OthersLeave(src, b, s0, es + [Claim(w)] + [Read(w, 0)], s2, w + 1);
    }
  }

  /** Read one byte at a time, every block comes out as its first byte throughout. */
  lemma BytewiseRun(src: seq<int>, b: nat, workers: nat) returns (es: seq<Event>, s: State)
    requires b > 0 && workers > 0
    ensures Reaches(src, b, Start(workers), es, s) && AllGone(s) && Smeared(src, b, s.dst, |src|)
  {
    var s0 := Start(workers);
    es, s := FileByBytes(src, b, s0, [], s0, 0);
    es, s := OthersLeave(src, b, s0, es, s, 1);
  }

  lemma SmearedCopy(src: seq<int>, b: nat, dst: map<int, int>)
    requires Smeared(src, b, dst, |src|)
    ensures IsCopy(src, dst) ==> Constant(src, b)
  {
    if IsCopy(src, dst) {
      forall i | 0 <= i < |src|
        ensures 0 <= i / b * b < |src| && src[i] == src[i / b * b]
      {
        assert i in dst;
      }
    }
  }

  /** A run with reads of any length that ends with all workers gone. */
  ghost predicate Ends(src: seq<int>, b: nat, workers: nat, es: seq<Event>, s: State) {
    Reaches(src, b, Start(workers), es, s) && AllGone(s)
  }

  ghost predicate AlwaysCopies(src: seq<int>, b: nat, workers: nat) {
    forall es, s :: Ends(src, b, workers, es, s) ==> IsCopy(src, s.dst)
  }

  /**
   With reads of any length: every run that ends has made a copy, if and only if the file
   is constant in each block. A write starts at the beginning of the buffer even if the
   last read filled a later part.
   */
  lemma AnyReadsIff(src: seq<int>, b: nat, workers: nat)
    requires b > 0 && workers > 0
    ensures AlwaysCopies(src, b, workers) <==> Constant(src, b)
  {
    if Constant(src, b) {
      forall es, s | Ends(src, b, workers, es, s)
        ensures IsCopy(src, s.dst)
      {
        ReachKeeps(src, b, Start(workers), es, s);
        GoneCopied(src, b, true, s);
      }
    } else {
      var es, s := BytewiseRun(src, b, workers);
      SmearedCopy(src, b, s.dst);
      assert Ends(src, b, workers, es, s);
    }
  }

  /** Two bytes that differ, in one block: a run with short reads whose copy is wrong. */
  lemma ShortReadSpoils() returns (es: seq<Event>, s: State)
    ensures Reaches([1, 2], 2, Start(1), es, s) && AllGone(s) && !IsCopy([1, 2], s.dst)
  {
    var src := [1, 2];
    assert 1 / 2 * 2 == 0 && src[1] != src[0];
    es, s := BytewiseRun(src, 2, 1);
    assert 1 in s.dst && s.dst[1] == src[1 / 2 * 2];
  }
}
