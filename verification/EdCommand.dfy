/**
 The global command of `ed` at work on the line array.
 */
module EdCommand {
  import opened EdLines
  import opened EdGlobal

  /** One command of the list. */
  method Execute(b: Buffer, edit: Edit) returns (ok: bool)
    requires b.Valid()
    modifies b, b.a
    ensures b.Valid() && (b.a == old(b.a) || fresh(b.a))
    ensures (if ok then Done(b.Entries()) else Failed(b.Entries())) == Apply(old(b.Entries()), edit)
    ensures ok && edit.Delete? ==> b.dot == AtMost(edit.i, b.dol)
  {
    ok := true;
    match edit {
      case Add(at, addrs) =>
        if 0 <= at <= b.dol { b.Append(at, addrs); } else { ok := false; }
      case Delete(i, j) =>
        if 1 <= i <= j <= b.dol { b.RDelete(i, j); } else { ok := false; }
      case Transfer(i, j, t) =>
        if 1 <= i <= j <= b.dol && 0 <= t <= b.dol { ok := b.Move(i, j, t); } else { ok := false; }
      case Copy(t, addrs) =>
        if 0 <= t <= b.dol && addrs != [] { b.CopyLines(t, addrs); } else { ok := false; }
      case Replace(i, addr) =>
        if 1 <= i <= b.dol { b.Replace(i, addr); } else { ok := false; }
      case Wipe =>
        b.Wipe();
    }
  }

  /** The command list, every command in turn up to the first error. */
  method ExecuteAll(b: Buffer, edits: seq<Edit>) returns (ok: bool, ghost trace: seq<seq<int>>)
    requires b.Valid()
    modifies b, b.a
    ensures b.Valid() && (b.a == old(b.a) || fresh(b.a))
    ensures Traced(old(b.Entries()), edits, trace, if ok then Done(b.Entries()) else Failed(b.Entries()))
    ensures ok && |edits| == 1 && edits[0].Delete? ==> b.dot == AtMost(edits[0].i, b.dol)
  {
    var n := 0;
    ok := true;
    trace := [b.Entries()];
    while ok && n < |edits|
      invariant b.Valid() && (b.a == old(b.a) || fresh(b.a)) && 0 <= n <= |edits|
      invariant ok ==> TracedTo(old(b.Entries()), edits, n, trace) && trace[n] == b.Entries()
      invariant !ok ==> Traced(old(b.Entries()), edits, trace, Failed(b.Entries()))
      invariant ok && |edits| == n == 1 && edits[0].Delete? ==> b.dot == AtMost(edits[0].i, b.dol)
      decreases |edits| - n, ok
    {
      ok := Execute(b, edits[n]);
      TracedNext(old(b.Entries()), edits, n, trace, b.Entries());
      if ok {
        trace := trace + [b.Entries()];
      }
      n := n + 1;
    }
  }

  /** The marking pass of `global`: exactly the chosen entries are marked, whatever was before. */
  method MarkLines(b: Buffer, hit: seq<bool>)
    requires b.Valid() && |hit| == b.dol + 1
    modifies b.a
    ensures b.Entries() == MarkedAs(old(b.Entries()), hit)
  {
    var p := 0;
    while p <= b.dol
      invariant 0 <= p <= b.dol + 1
      invariant forall q :: 0 <= q < p ==> b.a[q] == WithMark(old(b.a[q]), hit[q])
      invariant forall q :: p <= q < b.a.Length ==> b.a[q] == old(b.a[q])
    {
      b.a[p] := WithMark(b.a[p], hit[p]);
      p := p + 1;
    }
  }

  /** After `passes` passes from `e0`, with what they left in `between`, the entries are `e`. */
  ghost predicate Reached(e0: seq<int>, e: seq<int>, script: Script, passes: nat, between: seq<seq<int>>) {
    && e0 != [] && e != [] && Stores(script)
    && Globally(e0, script, 0) == Globally(e, script, passes)
    && passes + Marks(e) <= Marks(e0)
    && Passes(e0, script, between) && |between| == passes + 1 && between[passes] == e
  }

  /**
   The global command from `e0` ends as `r`, with at most one pass for each marked line;
   if it failed, it did so in the last pass.
   */
  ghost predicate Ended(e0: seq<int>, r: Outcome, script: Script, passes: nat, between: seq<seq<int>>) {
    && e0 != [] && Stores(script) && Globally(e0, script, 0) == r && passes <= Marks(e0)
    && Passes(e0, script, between)
    && if r.Done? then |between| == passes + 1 && between[passes] == r.entries
       else |between| == passes && PassTraced(between[passes - 1], script, passes - 1, r)
  }

  lemma ReachedStart(e: seq<int>, script: Script)
    requires e != [] && Stores(script)
    ensures Reached(e, e, script, 0, [e])
  {
  }

  lemma ReachedEnd(e0: seq<int>, e: seq<int>, script: Script, passes: nat, between: seq<seq<int>>)
    requires Reached(e0, e, script, passes, between) && ClearBelow(e, |e|)
    ensures Ended(e0, Done(e), script, passes, between) && AllUnmarked(e)
  {
    FirstMarkedNone(e);
  }

  lemma {:induction false} ReachedNext(e0: seq<int>, e: seq<int>, k: nat, script: Script, n: nat,
                                       between: seq<seq<int>>, r: Outcome)
    requires Reached(e0, e, script, n, between) && k < |e| && Marked(e[k]) && ClearBelow(e, k)
    requires r == Pass(e, k, script, n) && PassTraced(e, script, n, r)
    ensures Marks(r.entries) < Marks(e) && ClearBelow(r.entries, 1)
    ensures r.Done? ==> Reached(e0, r.entries, script, n + 1, between + [r.entries])
    ensures r.Failed? ==> Ended(e0, r, script, n + 1, between)
  {
    FirstMarkedUnique(e, k);
    PassDecreases(e, k, script, n);
    if r.Done? {
      PassesNext(e0, script, between, r.entries);
    }
  }

  /**
   The loop of `global`: for every script that stores even addresses it comes to an
   end, after at most one pass for each line that was marked. Each pass runs the whole
   list at the first marked line, on what the pass before has left.
   */
  method RunGlobal(b: Buffer, script: Script) returns (ok: bool, passes: nat, ghost between: seq<seq<int>>)
    requires b.Valid() && Stores(script)
    modifies b, b.a
    ensures b.Valid() && (b.a == old(b.a) || fresh(b.a))
    ensures Ended(old(b.Entries()), if ok then Done(b.Entries()) else Failed(b.Entries()), script, passes, between)
    ensures ok ==> AllUnmarked(b.Entries())
    ensures ok && Deletes(script) ==> b.dot == TurnDot(old(b.Entries()), old(b.dot))
  {
    ok, passes := true, 0;
    var a1 := 0;
    ghost var e0 := b.Entries();
    between := [e0];
    ReachedStart(e0, script);
    while a1 <= b.dol
      invariant b.Valid() && (b.a == old(b.a) || fresh(b.a)) && 0 <= a1
      invariant a1 <= b.dol + 1 && ClearBelow(b.Entries(), a1)
      invariant Reached(e0, b.Entries(), script, passes, between)
      invariant Deletes(script) ==> TurnDot(e0, old(b.dot)) == TurnDot(b.Entries(), b.dot)
      decreases Marks(b.Entries()), b.dol - a1
    {
      if Marked(b.a[a1]) {
        ok, between := OnePass(b, a1, script, passes, e0, between);
        passes := passes + 1;
        if !ok {
          return;
        }
        a1 := 0;
      } else {
        ClearStep(b.Entries(), a1);
      }
      a1 := a1 + 1;
    }
    ReachedEnd(e0, b.Entries(), script, passes, between);
    TurnDotNone(b.Entries(), b.dot);
  }

  lemma PassSeen(e: seq<int>, k: nat, script: Script, n: nat, trace: seq<seq<int>>, r: Outcome)
    requires k < |e| && Marked(e[k]) && ClearBelow(e, k)
    requires Traced(e[k := Unmark(e[k])], script(n, e[k := Unmark(e[k])], k), trace, r)
    ensures PassTraced(e, script, n, r)
  {
    FirstMarkedUnique(e, k);
    assert PassTrace(e, script, n, trace, r);
  }

  /** One turn of the loop at a marked entry. */
  method OnePass(b: Buffer, k: nat, script: Script, n: nat, ghost e0: seq<int>, ghost between: seq<seq<int>>)
    returns (ok: bool, ghost between': seq<seq<int>>)
    requires b.Valid() && k <= b.dol && Marked(b.Entries()[k])
    requires ClearBelow(b.Entries(), k) && Reached(e0, b.Entries(), script, n, between)
    modifies b, b.a
    ensures b.Valid() && (b.a == old(b.a) || fresh(b.a))
    ensures ClearBelow(b.Entries(), 1)
    ensures Marks(b.Entries()) < Marks(old(b.Entries()))
    ensures ok ==> Reached(e0, b.Entries(), script, n + 1, between')
    ensures ok && Deletes(script) ==> TurnDot(old(b.Entries()), old(b.dot)) == TurnDot(b.Entries(), b.dot)
    ensures !ok ==> Ended(e0, Failed(b.Entries()), script, n + 1, between')
  {
    ghost var e := b.Entries();
    b.a[k] := Unmark(b.a[k]);
    b.dot := k;
    assert b.a[..][..b.dol + 1] == e[k := Unmark(e[k])];
    ghost var trace;
    ok, trace := ExecuteAll(b, script(n, b.a[..][..b.dol + 1], k));
    ghost var r := if ok then Done(b.Entries()) else Failed(b.Entries());
    TraceTells(e[k := Unmark(e[k])], script(n, e[k := Unmark(e[k])], k), trace, r);
    PassSeen(e, k, script, n, trace, r);
    ReachedNext(e0, e, k, script, n, between, r);
    between' := if ok then between + [b.Entries()] else between;
    if ok && Deletes(script) {
      TurnDotPass(e, k, script, n, b.Entries(), old(b.dot));
    }
  }

  /** `gdelete`: one sweep keeps the unmarked entries, in order. */
  method GDelete(b: Buffer)
    requires b.Valid()
    modifies b`dol, b`dot, b.a
    ensures b.dol == |Unmarked(old(b.Entries()))| - 1
    ensures b.a[..][..b.dol + 1] == Unmarked(old(b.Entries()))
    ensures b.dot == SweptDot(old(b.Entries()), old(b.dot))
  {
    ghost var e := b.Entries();
    var a3, a1 := b.dol, 0;
    while !Marked(b.a[a1])
      invariant 0 <= a1 <= a3 == b.dol == |e| - 1 && b.Valid()
      invariant b.Entries() == e && AllUnmarked(e[..a1])
      decreases a3 - a1
    {
      if a1 >= a3 {
        UnmarkedAll(e);
        return;
      }
      a1 := a1 + 1;
    }
    UnmarkedAll(e[..a1]);
    SweepStart(e, a1, b.a[..]);
    DotStart(e, a1, b.dot);
    var end, dot := Sweep(b.a, a1, a3, b.dot, e);
    b.dol := end - 1;
    b.dot := if dot > b.dol then b.dol else dot;
  }

  /** The copying loop of `gdelete`, from the first marked entry on. */
  method Sweep(a: array<int>, first: nat, a3: nat, dot0: int, ghost e: seq<int>)
    returns (end: int, dot: int)
    requires first <= a3 < a.Length && |e| == a3 + 1
    requires forall p :: first < p <= a3 ==> a[p] == e[p]
    requires Sweeping(e, first + 1, a[..], first, dot0, dot0)
    modifies a
    ensures end == |Unmarked(e)| <= a3 && a[..][..end] == Unmarked(e)
    ensures dot == SweepDot(e, dot0)
  {
    var a1, a2 := first, first + 1;
    dot := dot0;
    while a2 <= a3
      invariant 0 <= a1 < a2 <= a3 + 1
      invariant Sweeping(e, a2, a[..], a1, dot0, dot)
      invariant forall p :: a2 <= p <= a3 ==> a[p] == e[p]
    {
      a1, dot := SweepOne(a, a1, a2, dot, e, dot0);
      a2 := a2 + 1;
    }
    end := a1;
    SweepEnd(e, a[..], end, dot0, dot);
  }

  /** One entry of the loop: a marked one moves dot, another is copied down. */
  method SweepOne(a: array<int>, a1: nat, a2: nat, dot: int, ghost e: seq<int>, ghost dot0: int)
    returns (n: nat, d: int)
    requires a1 < a2 < |e| <= a.Length && a[a2] == e[a2]
    requires Sweeping(e, a2, a[..], a1, dot0, dot)
    modifies a
    ensures a1 <= n <= a1 + 1 && Sweeping(e, a2 + 1, a[..], n, dot0, d)
    ensures forall p :: a2 < p < a.Length ==> a[p] == old(a[p])
  {
    if Marked(a[a2]) {
      SweepDrop(e, a2, a[..], a1, dot0, dot);
      n, d := a1, a1;
    } else {
      SweepKeep(e, a2, a[..], a1, dot0, dot);
      a[a1] := a[a2];
      assert a[..] == old(a[..])[a1 := e[a2]];
      n, d := a1 + 1, dot;
    }
  }

  /**
   `g/re/d` and `v/re/d`: the fast deletion leaves what `d` at every marked line in turn
   would leave, except that `v` on an empty buffer sweeps line zero away.
   */
  method GlobalDelete(b: Buffer, addr1: int, addr2: int, wanted: bool, match_: nat -> bool) returns (ok: bool)
    requires b.Valid()
    modifies b`dol, b`dot, b.a
    ensures ok == InRange(old(b.dol), addr1, addr2)
    ensures !ok ==> b.Valid() && b.Entries() == old(b.Entries())
    ensures ok ==> 0 <= b.dol + 1 <= b.a.Length
    ensures ok ==> var marked := MarkedAs(old(b.Entries()), Hits(old(b.dol), addr1, addr2, wanted, match_));
            b.a[..][..b.dol + 1] == Unmarked(marked) && b.dot == SweptDot(marked, old(b.dot))
  {
    ok := InRange(b.dol, addr1, addr2);
    if ok {
      MarkLines(b, Hits(b.dol, addr1, addr2, wanted, match_));
      GDelete(b);
    }
  }

  /** The fast and the slow deletion agree on all but one command. */
  lemma FastDeletion(e: seq<int>, addr1: int, addr2: int, wanted: bool, match_: nat -> bool)
    requires e != [] && InRange(|e| - 1, addr1, addr2)
    ensures var marked := MarkedAs(e, Hits(|e| - 1, addr1, addr2, wanted, match_));
            Globally(marked, DeleteDot(), 0).entries == Unmarked(marked) <==> |e| > 1 || wanted
  {
    SweepIsDeletion(MarkedAs(e, Hits(|e| - 1, addr1, addr2, wanted, match_)), 0);
  }
}
