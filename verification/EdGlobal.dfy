/**
 The global command of `ed`: a list of commands run once at every marked line, and
 the one-sweep deletion that replaces it for `g/re/d` and `v/re/d`.
 */
module EdGlobal {
  import opened EdLines

  /** What one command does to the line array; addresses to store come from `putline`. */
  datatype Edit =
    | Add(at: int, addrs: seq<int>)
    | Delete(i: int, j: int)
    | Transfer(i: int, j: int, t: int)
    | Copy(t: int, addrs: seq<int>)
    | Replace(i: int, addr: int)
    | Wipe

  /** A command either finishes or reports an error, which ends the global command. */
  datatype Outcome = Done(entries: seq<int>) | Failed(entries: seq<int>)

  predicate AllUnmarked(s: seq<int>) {
    forall k :: 0 <= k < |s| ==> !Marked(s[k])
  }

  /** `putline` hands out even addresses only, so no stored address carries a mark. */
  predicate Storable(edit: Edit) {
    match edit
    case Add(_, addrs) => AllUnmarked(addrs)
    case Copy(_, addrs) => AllUnmarked(addrs)
    case Replace(_, addr) => !Marked(addr)
    case _ => true
  }

  function Apply(e: seq<int>, edit: Edit): (r: Outcome)
    requires e != []
    ensures r.entries != [] && r.entries[0] == e[0]
  {
    match edit
    case Add(at, addrs) =>
      if 0 <= at < |e| then Done(Inserted(e, at, addrs)) else Failed(e)
    case Delete(i, j) =>
      if 1 <= i <= j < |e| then Done(Removed(e, i, j)) else Failed(e)
    case Transfer(i, j, t) =>
      if !(1 <= i <= j < |e| && 0 <= t < |e|) then Failed(e)
      else
        var cleared := MarksCleared(e, i, j);
        if t < i || t > j then Done(MoveAfter(cleared, i, j, t)) else Failed(cleared)
    case Copy(t, addrs) =>
      if 0 <= t < |e| && addrs != [] then Done(Inserted(e, t, addrs)) else Failed(e)
    case Replace(i, addr) =>
      if 1 <= i < |e| then Done(e[i := addr]) else Failed(e)
    case Wipe => Done(e[..1])
  }

  /** The commands of one pass, in order, up to the first that fails. */
  function RunEdits(e: seq<int>, edits: seq<Edit>): (r: Outcome)
    requires e != []
    ensures r.entries != [] && r.entries[0] == e[0]
    decreases |edits|
  {
    if edits == [] then Done(e) else
    match Apply(e, edits[0])
    case Failed(e') => Failed(e')
    case Done(e') => RunEdits(e', edits[1..])
  }

  /**
   The line arrays that a list of commands goes through: each command is applied to what
   the one before left, until the list is done or a command fails.
   */
  ghost predicate Traced(e: seq<int>, edits: seq<Edit>, trace: seq<seq<int>>, r: Outcome) {
    && 0 < |trace| <= |edits| + 1 && trace[0] == e && (forall k :: 0 <= k < |trace| ==> trace[k] != [])
    && (forall k :: 0 <= k < |trace| - 1 ==> Apply(trace[k], edits[k]) == Done(trace[k + 1]))
    && if r.Done? then |trace| == |edits| + 1 && r.entries == trace[|edits|]
       else |trace| <= |edits| && Apply(trace[|trace| - 1], edits[|trace| - 1]) == r
  }

  /** The first `n` commands have been run. */
  ghost predicate TracedTo(e: seq<int>, edits: seq<Edit>, n: nat, trace: seq<seq<int>>) {
    && n <= |edits| && |trace| == n + 1 && trace[0] == e && (forall k :: 0 <= k < |trace| ==> trace[k] != [])
    && forall k :: 0 <= k < n ==> Apply(trace[k], edits[k]) == Done(trace[k + 1])
  }

  lemma TracedNext(e: seq<int>, edits: seq<Edit>, n: nat, trace: seq<seq<int>>, e': seq<int>)
    requires TracedTo(e, edits, n, trace) && n < |edits|
    ensures Apply(trace[n], edits[n]) == Done(e') ==> TracedTo(e, edits, n + 1, trace + [e'])
    ensures Apply(trace[n], edits[n]) == Failed(e') ==> Traced(e, edits, trace, Failed(e'))
  {
  }

  /** What a list of commands does is known from such a trace, and there always is one. */
  lemma {:induction false} TraceTells(e: seq<int>, edits: seq<Edit>, trace: seq<seq<int>>, r: Outcome)
    requires e != [] && Traced(e, edits, trace, r)
    ensures RunEdits(e, edits) == r
    decreases |edits|
  {
    if |trace| > 1 {
      forall k | 0 <= k < |trace[1..]| - 1
        ensures Apply(trace[1..][k], edits[1..][k]) == Done(trace[1..][k + 1])
      {
        assert Apply(trace[k + 1], edits[k + 1]) == Done(trace[k + 2]);
      }
      TraceTells(trace[1], edits[1..], trace[1..], r);
    }
  }

  lemma {:induction false} TraceOf(e: seq<int>, edits: seq<Edit>) returns (trace: seq<seq<int>>)
    requires e != []
    ensures Traced(e, edits, trace, RunEdits(e, edits))
    decreases |edits|
  {
    trace := [e];
    if edits != [] && Apply(e, edits[0]).Done? {
      var e' := Apply(e, edits[0]).entries;
      var rest := TraceOf(e', edits[1..]);
      trace := [e] + rest;
      forall k | 0 <= k < |trace| - 1
        ensures Apply(trace[k], edits[k]) == Done(trace[k + 1])
      {
        if k > 0 {
          assert Apply(rest[k - 1], edits[1..][k - 1]) == Done(rest[k]);
        }
      }
    }
  }

  /** A list is its first part and then, if that succeeds, the rest. */
  lemma {:induction false} RunEditsConcat(e: seq<int>, s: seq<Edit>, t: seq<Edit>)
    requires e != []
    ensures RunEdits(e, s + t) ==
            if RunEdits(e, s).Done? then RunEdits(RunEdits(e, s).entries, t) else RunEdits(e, s)
    decreases |s|
  {
    if s == [] {
      assert s + t == t;
    } else {
      assert (s + t)[0] == s[0] && (s + t)[1..] == s[1..] + t;
      if Apply(e, s[0]).Done? {
        RunEditsConcat(Apply(e, s[0]).entries, s[1..], t);
      }
    }
  }

  // ---------------------------------------------------------------- counting marks

  /** How many entries are marked. */
  function Marks(e: seq<int>): nat {
    if e == [] then 0 else Marks(e[..|e| - 1]) + if Marked(e[|e| - 1]) then 1 else 0
  }

  lemma {:induction false} MarksConcat(s: seq<int>, t: seq<int>)
    ensures Marks(s + t) == Marks(s) + Marks(t)
    decreases |t|
  {
    if t == [] {
      assert s + t == s;
    } else {
      assert (s + t)[..|s + t| - 1] == s + t[..|t| - 1];
      MarksConcat(s, t[..|t| - 1]);
    }
  }

  lemma MarksJoin3(x: seq<int>, y: seq<int>, z: seq<int>)
    ensures Marks(x + y + z) == Marks(x) + Marks(y) + Marks(z)
  {
    MarksConcat(x + y, z);
    MarksConcat(x, y);
  }

  lemma {:induction false} MarksNone(s: seq<int>)
    ensures Marks(s) == 0 <==> AllUnmarked(s)
  {
    if s != [] {
      MarksNone(s[..|s| - 1]);
      assert s == s[..|s| - 1] + [s[|s| - 1]];
    }
  }

  lemma MarksSplit(e: seq<int>, i: nat, j: nat)
    requires i <= j <= |e|
    ensures Marks(e) == Marks(e[..i]) + Marks(e[i..j]) + Marks(e[j..])
  {
    Join(e, i, j);
    MarksJoin3(e[..i], e[i..j], e[j..]);
  }

  lemma MarksUpdate(e: seq<int>, k: nat, x: int)
    requires k < |e| && !Marked(x)
    ensures Marks(e[k := x]) == Marks(e) - if Marked(e[k]) then 1 else 0
  {
    MarksSplit(e, k, k + 1);
    MarksSplit(e[k := x], k, k + 1);
    assert e[k := x][..k] == e[..k] && e[k := x][k + 1..] == e[k + 1..];
    assert e[k := x][k..k + 1] == [x] && e[k..k + 1] == [e[k]];
    assert [x][..0] == [] && [e[k]][..0] == [];
  }

  lemma MarksInserted(e: seq<int>, at: nat, addrs: seq<int>)
    requires at < |e| && AllUnmarked(addrs)
    ensures Marks(Inserted(e, at, addrs)) == Marks(e)
  {
    MarksJoin3(e[..at + 1], addrs, e[at + 1..]);
    MarksNone(addrs);
    MarksSplit(e, at + 1, at + 1);
    assert e[at + 1..at + 1] == [];
  }

  lemma {:induction false} MarksRemoved(e: seq<int>, i: nat, j: nat)
    requires 1 <= i <= j < |e|
    ensures Marks(Removed(e, i, j)) <= Marks(e)
  {
    MarksSplit(e, i, j + 1);
    MarksConcat(e[..i], e[j + 1..]);
  }

  lemma {:induction false} MarksUnmarkAll(s: seq<int>)
    ensures Marks(UnmarkAll(s)) == 0
  {
    if s != [] {
      var init := s[..|s| - 1];
      MarksUnmarkAll(init);
      MarksConcat(UnmarkAll(init), [Unmark(s[|s| - 1])]);
      MarksNone([Unmark(s[|s| - 1])]);
    }
  }

  lemma {:induction false} MarksClearedDrop(e: seq<int>, i: nat, j: nat)
    requires 1 <= i <= j < |e|
    ensures Marks(MarksCleared(e, i, j)) <= Marks(e)
  {
    var x, y, z := e[..i], e[i..j + 1], e[j + 1..];
    MarksSplit(e, i, j + 1);
    MarksUnmarkAll(y);
    MarksJoin3(x, UnmarkAll(y), z);
  }

  lemma {:induction false} MarksExchanged(e: seq<int>, lo: nat, mid: nat, hi: nat)
    requires lo <= mid <= hi <= |e|
    ensures Marks(Exchanged(e, lo, mid, hi)) == Marks(e)
  {
    var p, x, y, z := e[..lo], e[lo..mid], e[mid..hi], e[hi..];
    MarksJoin3(p, y + x, z);
    MarksConcat(y, x);
    MarksConcat(x, y);
    assert e[lo..hi] == x + y;
    MarksSplit(e, lo, hi);
  }

  lemma {:induction false} MarksMoved(e: seq<int>, i: nat, j: nat, t: nat)
    requires 1 <= i <= j < |e| && t < |e| && (t < i || t > j)
    ensures Marks(MoveAfter(e, i, j, t)) == Marks(e)
  {
    MoveIsExchange(e, i, j, t);
    if t < i {
      MarksExchanged(e, t + 1, i, j + 1);
    } else {
      MarksExchanged(e, i, j + 1, t + 1);
    }
  }

  lemma MarksWiped(e: seq<int>)
    requires e != []
    ensures Marks(e[..1]) <= Marks(e)
  {
    MarksSplit(e, 1, 1);
  }

  /** No command adds a mark. */
  lemma ApplyMarks(e: seq<int>, edit: Edit)
    requires e != [] && Storable(edit)
    ensures Marks(Apply(e, edit).entries) <= Marks(e)
  {
    match edit {
      case Add(at, addrs) =>
        if 0 <= at < |e| { MarksInserted(e, at, addrs); }
      case Delete(i, j) =>
        if 1 <= i <= j < |e| { MarksRemoved(e, i, j); }
      case Transfer(i, j, t) =>
        if 1 <= i <= j < |e| && 0 <= t < |e| {
          MarksClearedDrop(e, i, j);
          if t < i || t > j { MarksMoved(MarksCleared(e, i, j), i, j, t); }
        }
      case Copy(t, addrs) =>
        if 0 <= t < |e| && addrs != [] { MarksInserted(e, t, addrs); }
      case Replace(i, addr) =>
        if 1 <= i < |e| { MarksUpdate(e, i, addr); }
      case Wipe =>
        MarksWiped(e);
    }
  }

  lemma {:induction false} RunEditsMarks(e: seq<int>, edits: seq<Edit>)
    requires e != [] && forall k :: 0 <= k < |edits| ==> Storable(edits[k])
    ensures Marks(RunEdits(e, edits).entries) <= Marks(e)
    decreases |edits|
  {
    if edits != [] {
      ApplyMarks(e, edits[0]);
      if Apply(e, edits[0]).Done? {
        RunEditsMarks(Apply(e, edits[0]).entries, edits[1..]);
      }
    }
  }

  // ---------------------------------------------------------------- the global command

  function WithMark(e: int, mark: bool): (r: int)
    ensures Marked(r) == mark && Unmark(r) == Unmark(e)
  {
    Unmark(e) + if mark then 1 else 0
  }

  /** Exactly the chosen entries marked, whatever was marked before. */
  function MarkedAs(e: seq<int>, hit: seq<bool>): (r: seq<int>)
    requires |e| == |hit|
    ensures |r| == |e| && forall p :: 0 <= p < |e| ==> r[p] == WithMark(e[p], hit[p])
  {
    seq(|e|, p requires 0 <= p < |e| => WithMark(e[p], hit[p]))
  }

  /** The range check of the global command: line zero is allowed in an empty buffer only. */
  predicate InRange(dol: int, addr1: int, addr2: int) {
    (if dol > 0 then 1 else 0) <= addr1 <= addr2 <= dol
  }

  /** The lines chosen: those in the range that match (`g`) or do not (`v`); line zero never matches. */
  function Hits(dol: nat, addr1: int, addr2: int, wanted: bool, match_: nat -> bool): (hit: seq<bool>)
    ensures |hit| == dol + 1
    ensures forall p :: 0 <= p <= dol ==> hit[p] == (addr1 <= p <= addr2 && (p > 0 && match_(p)) == wanted)
  {
    seq(dol + 1, p requires 0 <= p <= dol => addr1 <= p <= addr2 && (p > 0 && match_(p)) == wanted)
  }

  /** The first marked entry, or the length when there is none. */
  function FirstMarked(e: seq<int>): (k: nat)
    ensures k <= |e|
    ensures forall p :: 0 <= p < k ==> !Marked(e[p])
    ensures k < |e| ==> Marked(e[k])
  {
    if e == [] || Marked(e[0]) then 0 else
    var k := 1 + FirstMarked(e[1..]);
    assert forall p :: 1 <= p < k ==> e[p] == e[1..][p - 1];
    k
  }

  /** No mark before entry `k`. */
  ghost predicate ClearBelow(e: seq<int>, k: nat) {
    forall p :: 0 <= p < k && p < |e| ==> !Marked(e[p])
  }

  /** No mark after entry `k`. */
  ghost predicate ClearAbove(e: seq<int>, k: nat) {
    forall p :: k < p < |e| ==> !Marked(e[p])
  }

  lemma ClearStep(e: seq<int>, k: nat)
    requires ClearBelow(e, k) && k < |e| && !Marked(e[k])
    ensures ClearBelow(e, k + 1)
  {
  }

  lemma FirstMarkedUnique(e: seq<int>, k: nat)
    requires k < |e| && Marked(e[k]) && ClearBelow(e, k)
    ensures FirstMarked(e) == k
  {
    var f := FirstMarked(e);
    assert f >= k;
  }

  /**
   A script: what the command list does in pass `n`, started on the given entries
   with dot on the given line. Any function, so any use of addresses and patterns.
   */
  type Script = (nat, seq<int>, nat) -> seq<Edit>

  ghost predicate Stores(script: Script) {
    forall n, e, k, p :: 0 <= p < |script(n, e, k)| ==> Storable(script(n, e, k)[p])
  }

  /** One pass: the mark of entry `k` is cleared and the commands run. */
  function Pass(e: seq<int>, k: nat, script: Script, n: nat): (r: Outcome)
    requires k < |e|
    ensures r.entries != []
  {
    var e' := e[k := Unmark(e[k])];
    RunEdits(e', script(n, e', k))
  }

  /** Whatever the commands do, a pass leaves fewer marked entries than it found. */
  lemma PassDecreases(e: seq<int>, k: nat, script: Script, n: nat)
    requires k < |e| && Marked(e[k]) && Stores(script)
    ensures Marks(Pass(e, k, script, n).entries) < Marks(e)
  {
    var e' := e[k := Unmark(e[k])];
    MarksUpdate(e, k, Unmark(e[k]));
    RunEditsMarks(e', script(n, e', k));
  }

  /** The global command as passes at the first marked line until none is left. */
  ghost function Globally(e: seq<int>, script: Script, n: nat): (r: Outcome)
    requires e != [] && Stores(script)
    ensures r.entries != []
    ensures r.Done? ==> AllUnmarked(r.entries)
    decreases Marks(e)
  {
    var k := FirstMarked(e);
    if k == |e| then Done(e)
    else
      PassDecreases(e, k, script, n);
      match Pass(e, k, script, n)
      case Failed(e') => Failed(e')
      case Done(e') => Globally(e', script, n + 1)
  }

  /** One pass at entry `k`, which is the first marked one: its commands in order from the entry unmarked. */
  ghost predicate PassTraced(e: seq<int>, script: Script, n: nat, r: Outcome) {
    exists trace: seq<seq<int>> :: PassTrace(e, script, n, trace, r)
  }

  ghost predicate PassTrace(e: seq<int>, script: Script, n: nat, trace: seq<seq<int>>, r: Outcome) {
    var k := FirstMarked(e);
    && k < |e|
    && var e' := e[k := Unmark(e[k])];
       Traced(e', script(n, e', k), trace, r)
  }

  /** The line arrays between the passes of a global command, from the first to the last. */
  ghost predicate Passes(e0: seq<int>, script: Script, between: seq<seq<int>>) {
    && between != [] && between[0] == e0
    && forall j: nat :: j + 1 < |between| ==> PassTraced(between[j], script, j, Done(between[j + 1]))
  }

  lemma PassesNext(e0: seq<int>, script: Script, between: seq<seq<int>>, e': seq<int>)
    requires Passes(e0, script, between) && PassTraced(between[|between| - 1], script, |between| - 1, Done(e'))
    ensures Passes(e0, script, between + [e'])
  {
  }

  // ---------------------------------------------------------------- deletion in one sweep

  /** The entries without a mark, in order. */
  function Unmarked(e: seq<int>): (r: seq<int>)
    ensures |r| <= |e|
  {
    if e == [] then []
    else Unmarked(e[..|e| - 1]) + if Marked(e[|e| - 1]) then [] else [e[|e| - 1]]
  }

  lemma {:induction false} UnmarkedConcat(s: seq<int>, t: seq<int>)
    ensures Unmarked(s + t) == Unmarked(s) + Unmarked(t)
    decreases |t|
  {
    if t == [] {
      assert s + t == s;
    } else {
      assert (s + t)[..|s + t| - 1] == s + t[..|t| - 1];
      UnmarkedConcat(s, t[..|t| - 1]);
    }
  }

  lemma {:induction false} UnmarkedAll(s: seq<int>)
    requires AllUnmarked(s)
    ensures Unmarked(s) == s
  {
    if s != [] {
      UnmarkedAll(s[..|s| - 1]);
    }
  }

  /** Deleting the first marked line removes it from what is left to sweep. */
  lemma UnmarkedDrop(e: seq<int>, k: nat)
    requires k < |e| && Marked(e[k])
    ensures Unmarked(e[..k] + e[k + 1..]) == Unmarked(e)
  {
    Join(e, k, k + 1);
    assert e[k..k + 1] == [e[k]] && [e[k]][..0] == [];
    assert Unmarked([e[k]]) == [];
    UnmarkedConcat(e[..k], e[k + 1..]);
    UnmarkedConcat(e[..k] + e[k..k + 1], e[k + 1..]);
    UnmarkedConcat(e[..k], e[k..k + 1]);
  }

  /** `d` at the current line. */
  function DeleteDot(): Script {
    (n: nat, e: seq<int>, k: nat) => [Delete(k, k)]
  }

  lemma PassDeletes(e: seq<int>, k: nat, n: nat)
    requires 1 <= k < |e|
    ensures Pass(e, k, DeleteDot(), n) == Done(e[..k] + e[k + 1..])
  {
    var e' := e[k := Unmark(e[k])];
    var edits := [Delete(k, k)];
    assert DeleteDot()(n, e', k) == edits && edits[1..] == [];
    assert Apply(e', edits[0]) == Done(Removed(e', k, k));
    assert RunEdits(e', edits) == RunEdits(Removed(e', k, k), []);
    assert e'[..k] == e[..k] && e'[k + 1..] == e[k + 1..];
  }

  /** The list of two lines `d` and `d` deletes two lines, and fails where there is only one. */
  lemma PassDeletesTwo(e: seq<int>, k: nat, script: Script, n: nat)
    requires 1 <= k < |e| && forall x: seq<int> :: script(n, x, k) == [Delete(k, k)] + [Delete(k, k)]
    ensures Pass(e, k, script, n) == if k + 1 < |e| then Done(e[..k] + e[k + 2..]) else Failed(e[..k])
  {
    var e', d := e[k := Unmark(e[k])], [Delete(k, k)];
    var e1 := e[..k] + e[k + 1..];
    RunEditsConcat(e', d, d);
    DeletesOne(e', k, e1);
    assert script(n, e', k) == d + d;
    if k + 1 < |e| {
      DeletesOne(e1, k, e[..k] + e[k + 2..]);
    } else {
      assert e1 == e[..k];
      assert Apply(e1, d[0]) == Failed(e1);
      assert RunEdits(e1, d) == Failed(e1);
    }
  }

  lemma DeletesOne(e: seq<int>, k: nat, e': seq<int>)
    requires 1 <= k < |e| && e' == e[..k] + e[k + 1..]
    ensures RunEdits(e, [Delete(k, k)]) == Done(e')
  {
    var edits := [Delete(k, k)];
    assert edits[1..] == [] && Apply(e, edits[0]) == Done(Removed(e, k, k));
    assert RunEdits(e, edits) == RunEdits(Removed(e, k, k), []);
  }

  /** `d` at every marked line in turn leaves the unmarked ones, if line zero is not marked. */
  lemma {:induction false} DeleteInTurn(e: seq<int>, n: nat)
    requires e != [] && !Marked(e[0])
    ensures Globally(e, DeleteDot(), n) == Done(Unmarked(e))
    decreases Marks(e)
  {
    var k := FirstMarked(e);
    if k == |e| {
      UnmarkedAll(e);
    } else {
      PassDecreases(e, k, DeleteDot(), n);
      PassDeletes(e, k, n);
      var e' := e[..k] + e[k + 1..];
      UnmarkedDrop(e, k);
      DeleteInTurn(e', n + 1);
    }
  }

  /** With line zero marked, which takes an empty buffer, `d` is an error there. */
  lemma DeleteAtZero(e: seq<int>, n: nat)
    requires e != [] && Marked(e[0])
    ensures Globally(e, DeleteDot(), n) == Failed(e[0 := Unmark(e[0])])
  {
    FirstMarkedUnique(e, 0);
    var e' := e[0 := Unmark(e[0])];
    var edits := [Delete(0, 0)];
    assert DeleteDot()(n, e', 0) == edits;
    assert Apply(e', edits[0]) == Failed(e');
    assert RunEdits(e', edits) == Failed(e');
    PassDecreases(e, 0, DeleteDot(), n);
  }

  /** The sweep and the line-by-line deletion agree exactly when line zero is not marked. */
  lemma SweepIsDeletion(e: seq<int>, n: nat)
    requires e != []
    ensures Globally(e, DeleteDot(), n).entries == Unmarked(e) <==> !Marked(e[0])
  {
    if Marked(e[0]) {
      DeleteAtZero(e, n);
      UnmarkedShorter(e);
    } else {
      DeleteInTurn(e, n);
    }
  }

  lemma UnmarkedShorter(e: seq<int>)
    requires e != [] && Marked(e[0])
    ensures |Unmarked(e)| < |e|
  {
    UnmarkedDrop(e, 0);
  }

  /** One entry more of the sweep. */
  lemma SweepNext(e: seq<int>, k: nat)
    requires k < |e|
    ensures Unmarked(e[..k + 1]) == Unmarked(e[..k]) + if Marked(e[k]) then [] else [e[k]]
  {
    assert e[..k + 1][..k] == e[..k];
  }

  /** The first `k` entries of `e` have been swept into the first `n` of `s`. */
  ghost predicate Swept(e: seq<int>, k: nat, s: seq<int>, n: nat) {
    n < |s| && k <= |e| && s[..n] == Unmarked(e[..k])
  }

  /** The last marked entry, or the length when there is none. */
  function LastMarked(e: seq<int>): (k: nat)
    ensures k <= |e|
    ensures k < |e| ==> Marked(e[k])
    ensures forall p :: (if k == |e| then 0 else k + 1) <= p < |e| ==> !Marked(e[p])
  {
    if e == [] then 0
    else if Marked(e[|e| - 1]) then |e| - 1
    else
      var k := LastMarked(e[..|e| - 1]);
      if k == |e| - 1 then |e| else k
  }

  /** Where the sweep leaves dot, before it is brought back to the last line: where it was unless two lines go. */
  function SweepDot(e: seq<int>, dot: int): int {
    if FirstMarked(e) < LastMarked(e) then |Unmarked(e[..LastMarked(e)])| else dot
  }

  /** Where the sweep leaves dot: alone if no line goes, and never past the last line otherwise. */
  ghost function SweptDot(e: seq<int>, dot: int): int {
    if AllUnmarked(e) then dot else AtMost(SweepDot(e, dot), |Unmarked(e)| - 1)
  }

  /** Where `d` at each marked line in turn leaves dot, each at the line that follows or the last. */
  ghost function TurnDot(e: seq<int>, dot: int): int
    decreases |e|
  {
    var k := FirstMarked(e);
    if k == |e| then dot
    else TurnDot(e[..k] + e[k + 1..], AtMost(k, |e| - 2))
  }

  lemma SweepStart(e: seq<int>, k: nat, s: seq<int>)
    requires k < |e| <= |s| && e == s[..|e|] && Marked(e[k]) && Unmarked(e[..k]) == e[..k]
    ensures Swept(e, k + 1, s, k)
  {
    var stays := e[..k];
    SweepNext(e, k);
    assert Unmarked(e[..k + 1]) == stays by { assert stays + [] == stays; }
    assert s[..k] == stays;
  }

  function AtMost(x: int, bound: int): int {
    if x > bound then bound else x
  }

  lemma LastMarkedUnique(e: seq<int>, k: nat)
    requires k < |e| && Marked(e[k]) && ClearAbove(e, k)
    ensures LastMarked(e) == k
  {
    var m := LastMarked(e);
    assert k <= m;
  }

  /** `d` in turn ends on the line after the last one to go, or on the last line. */
  lemma {:induction false} TurnDotLast(e: seq<int>, dot: int)
    requires e != [] && !Marked(e[0]) && !AllUnmarked(e)
    ensures TurnDot(e, dot) == DotAfterLast(e)
    decreases |e|
  {
    var k, m := FirstMarked(e), LastMarked(e);
    var e' := e[..k] + e[k + 1..];
    if k == m {
      OneMarked(e, k);
      TurnDotNone(e', AtMost(k, |e| - 2));
    } else {
      OthersMarked(e, k, m, e');
      TurnDotLast(e', AtMost(k, |e| - 2));
    }
  }

  lemma TurnDotNone(e: seq<int>, dot: int)
    requires ClearBelow(e, |e|)
    ensures TurnDot(e, dot) == dot
  {
    FirstMarkedNone(e);
  }

  /** On the line after the last one to go, or on the last line. */
  ghost function DotAfterLast(e: seq<int>): int {
    AtMost(|Unmarked(e[..LastMarked(e)])|, |Unmarked(e)| - 1)
  }

  /** Every pass of the script is `d` at dot. */
  ghost predicate Deletes(script: Script) {
    forall n: nat, e: seq<int>, k: nat :: script(n, e, k) == [Delete(k, k)]
  }

  /** One pass of such a script, dot included. */
  lemma TurnDotPass(e: seq<int>, k: nat, script: Script, n: nat, e': seq<int>, dot: int)
    requires k < |e| && Marked(e[k]) && ClearBelow(e, k) && Deletes(script)
    requires Pass(e, k, script, n) == Done(e')
    ensures TurnDot(e, dot) == TurnDot(e', AtMost(k, |e'| - 1))
  {
    var cleared := e[k := Unmark(e[k])];
    var edits := script(n, cleared, k);
    assert edits == [Delete(k, k)] && edits[1..] == [];
    FirstMarkedUnique(e, k);
    if k > 0 {
      assert Apply(cleared, edits[0]) == Done(Removed(cleared, k, k));
      assert RunEdits(Removed(cleared, k, k), []) == Done(e');
      assert e' == e[..k] + e[k + 1..];
    }
  }

  lemma OneMarked(e: seq<int>, k: nat)
    requires k < |e| && Marked(e[k]) && ClearBelow(e, k) && ClearAbove(e, k)
    ensures |Unmarked(e[..k])| == k && |Unmarked(e)| == |e| - 1
    ensures ClearBelow(e[..k] + e[k + 1..], |e| - 1)
  {
    UnmarkedDrop(e, k);
    UnmarkedAll(e[..k]);
    UnmarkedAll(e[..k] + e[k + 1..]);
  }

  lemma OthersMarked(e: seq<int>, k: nat, m: nat, e': seq<int>)
    requires k < m < |e| && Marked(e[k]) && Marked(e[m]) && ClearAbove(e, m) && e' == e[..k] + e[k + 1..]
    ensures LastMarked(e') == m - 1 && !AllUnmarked(e')
    ensures m == LastMarked(e) ==> DotAfterLast(e') == DotAfterLast(e)
  {
    assert e'[m - 1] == e[m];
    LastMarkedUnique(e', m - 1);
    assert e[..m][..k] + e[..m][k + 1..] == e'[..m - 1];
    UnmarkedDrop(e[..m], k);
    UnmarkedDrop(e, k);
  }

  /**
   When the sweep deletes something it leaves dot where `d` in turn does, unless exactly
   one line goes and dot was elsewhere.
   */
  lemma SweepDotIsTurnDot(e: seq<int>, dot: int)
    requires e != [] && !Marked(e[0]) && !AllUnmarked(e)
    ensures SweptDot(e, dot) == TurnDot(e, dot) <==>
            FirstMarked(e) < LastMarked(e) || AtMost(dot, |e| - 2) == AtMost(FirstMarked(e), |e| - 2)
  {
    TurnDotLast(e, dot);
    var k := FirstMarked(e);
    if k == LastMarked(e) {
      OneMarked(e, k);
    }
  }

  /** The dot of the sweep so far, with entries `first` and later of the first `k` seen. */
  ghost predicate DotSoFar(e: seq<int>, k: nat, dot0: int, dot: int) {
    k <= |e| && dot == SweepDot(e[..k], dot0) && !AllUnmarked(e[..k])
  }

  lemma DotStart(e: seq<int>, k: nat, dot0: int)
    requires k < |e| && Marked(e[k]) && AllUnmarked(e[..k])
    ensures DotSoFar(e, k + 1, dot0, dot0)
  {
    assert forall p :: 0 <= p < k ==> e[..k][p] == e[..k + 1][p];
    FirstMarkedUnique(e[..k + 1], k);
    LastMarkedUnique(e[..k + 1], k);
  }

  lemma DotKeep(e: seq<int>, k: nat, dot0: int, dot: int)
    requires k < |e| && DotSoFar(e, k, dot0, dot) && !Marked(e[k])
    ensures DotSoFar(e, k + 1, dot0, dot)
  {
    var s, t := e[..k], e[..k + 1];
    var m := LastMarked(s);
    assert forall p :: 0 <= p < k ==> s[p] == t[p];
    LastMarkedUnique(t, m);
    FirstMarkedUnique(t, FirstMarked(s));
    assert t[..m] == s[..m];
  }

  lemma DotDrop(e: seq<int>, k: nat, dot0: int, dot: int)
    requires k < |e| && DotSoFar(e, k, dot0, dot) && Marked(e[k])
    ensures DotSoFar(e, k + 1, dot0, |Unmarked(e[..k])|)
  {
    var s, t := e[..k], e[..k + 1];
    assert forall p :: 0 <= p < k ==> s[p] == t[p];
    LastMarkedUnique(t, k);
    FirstMarkedUnique(t, FirstMarked(s));
    assert t[..k] == s;
  }

  /** The sweep has come to entry `k`: `s` holds `n` entries that stay, and dot is `dot`. */
  ghost predicate Sweeping(e: seq<int>, k: nat, s: seq<int>, n: nat, dot0: int, dot: int) {
    Swept(e, k, s, n) && DotSoFar(e, k, dot0, dot)
  }

  lemma SweepKeep(e: seq<int>, k: nat, s: seq<int>, n: nat, dot0: int, dot: int)
    requires k < |e| && Sweeping(e, k, s, n, dot0, dot) && n + 1 < |s| && !Marked(e[k])
    ensures Sweeping(e, k + 1, s[n := e[k]], n + 1, dot0, dot)
  {
    SweepNext(e, k);
    assert s[n := e[k]][..n + 1] == s[..n] + [e[k]];
    DotKeep(e, k, dot0, dot);
  }

  lemma SweepDrop(e: seq<int>, k: nat, s: seq<int>, n: nat, dot0: int, dot: int)
    requires k < |e| && Sweeping(e, k, s, n, dot0, dot) && Marked(e[k])
    ensures Sweeping(e, k + 1, s, n, dot0, n)
  {
    SweepNext(e, k);
    DotDrop(e, k, dot0, dot);
  }

  lemma SweepEnd(e: seq<int>, s: seq<int>, n: nat, dot0: int, dot: int)
    requires Sweeping(e, |e|, s, n, dot0, dot)
    ensures s[..n] == Unmarked(e) && n == |Unmarked(e)| && dot == SweepDot(e, dot0)
  {
    assert e[..|e|] == e;
  }

  lemma FirstMarkedNone(e: seq<int>)
    requires ClearBelow(e, |e|)
    ensures FirstMarked(e) == |e| && AllUnmarked(e)
  {
  }
}
