/**
 When `ar` writes a directory, when it writes none, and when it leaves the archive alone.
 */
module ArOutcome {
  import opened ArFormat
  import opened ArDirectory
  import opened ArTool
  import opened ArMove

  /** The names of the text symbols, in order. */
  function TextsOf(syms: seq<Symbol>): seq<seq<int>> {
    if syms == [] then []
    else TextsOf(syms[..|syms| - 1]) + if syms[|syms| - 1].kind == 84 then [syms[|syms| - 1].name] else []
  }

  /** The text symbols of all members that are kept, in archive order. */
  function KeptTexts(ms: seq<Member>, goes: seq<Option<Where>>, n: nat): seq<seq<int>>
    requires n <= |ms| == |goes|
  {
    if n == 0 then []
    else KeptTexts(ms, goes, n - 1) + if goes[n - 1].Some? then TextsOf(ms[n - 1].syms) else []
  }

  ghost predicate Distinct(names: seq<seq<int>>) {
    forall i, j :: 0 <= i < j < |names| ==> names[i] != names[j]
  }

  // ---------------------------------------------------------------- duplicate text symbols

  /** What the table of text symbols knows after `seen`. */
  ghost predicate Tracks(texts: set<seq<int>>, dup: bool, seen: seq<seq<int>>) {
    (forall x :: x in texts <==> x in seen) && (dup <==> !Distinct(seen))
  }

  lemma DistinctSnoc(seen: seq<seq<int>>, name: seq<int>)
    ensures Distinct(seen + [name]) <==> Distinct(seen) && name !in seen
  {
    var s := seen + [name];
    if Distinct(s) {
      forall i, j | 0 <= i < j < |seen|
        ensures seen[i] != seen[j]
      {
        assert s[i] != s[j];
      }
      forall k | 0 <= k < |seen|
        ensures seen[k] != name
      {
        assert s[k] != s[|seen|];
      }
    }
  }

  lemma SymbolTracks(st: Scan, s: Symbol, offset: int, seen: seq<seq<int>>)
    requires Tracks(st.texts, st.dup, seen)
    ensures var st' := ScanSymbol(st, s, offset);
            Tracks(st'.texts, st'.dup, seen + if s.kind == 84 then [s.name] else [])
  {
    if s.kind == 84 {
      DistinctSnoc(seen, s.name);
    } else {
      assert seen + [] == seen;
    }
  }

  lemma {:induction false} ScanTracks(st: Scan, syms: seq<Symbol>, offset: int, seen: seq<seq<int>>)
    requires Tracks(st.texts, st.dup, seen)
    ensures Tracks(ScanAll(st, syms, offset).texts, ScanAll(st, syms, offset).dup, seen + TextsOf(syms))
  {
    if syms == [] {
      assert seen + [] == seen;
    } else {
      var init, s := syms[..|syms| - 1], syms[|syms| - 1];
      ScanTracks(st, init, offset, seen);
      SymbolTracks(ScanAll(st, init, offset), s, offset, seen + TextsOf(init));
      var last := if s.kind == 84 then [s.name] else [];
      assert (seen + TextsOf(init)) + last == seen + (TextsOf(init) + last);
    }
  }

  // ---------------------------------------------------------------- objects of one type

  /** All members kept are readable object files of one type. */
  ghost predicate OneType(ms: seq<Member>, goes: seq<Option<Where>>, n: nat)
    requires n <= |ms| == |goes|
  {
    && (forall k :: 0 <= k < n && goes[k].Some? ==> ms[k].obj >= 0 && ms[k].readable)
    && (forall i, j :: 0 <= i < j < n && goes[i].Some? && goes[j].Some? ==> ms[i].obj == ms[j].obj)
  }

  /** What the ledger says of the members filed so far. */
  ghost predicate Judged(l: Ledger, ms: seq<Member>, goes: seq<Option<Where>>, n: nat)
    requires n <= |ms| == |goes|
  {
    && (l.allobj <==> OneType(ms, goes, n))
    && (l.allobj ==> Tracks(l.texts, l.dup, KeptTexts(ms, goes, n)))
    && (l.allobj ==> forall k :: 0 <= k < n && goes[k].Some? ==> l.lastobj == ms[k].obj)
    && (l.allobj && l.lastobj >= 0 ==> exists k :: 0 <= k < n && goes[k].Some? && l.lastobj == ms[k].obj)
  }

  /** A member of another type, or none at all, ends the collecting of symbols. */
  lemma TypeNext(l: Ledger, ms: seq<Member>, goes: seq<Option<Where>>, n: nat, k: nat)
    requires k + 1 == n <= |ms| == |goes| && goes[k].Some? && Judged(l, ms, goes, k)
    ensures OneType(ms, goes, n) <==>
            l.allobj && ms[k].obj >= 0 && ms[k].readable && (l.lastobj >= 0 ==> ms[k].obj == l.lastobj)
  {
    if l.allobj && l.lastobj >= 0 {
      var i :| 0 <= i < k && goes[i].Some? && l.lastobj == ms[i].obj;
    }
    if OneType(ms, goes, n) {
      assert OneType(ms, goes, k);
    }
  }

  lemma PlacedFields(l: Ledger, w: Where, m: Member)
    ensures var l' := l.Placed(w, m);
            && (l'.allobj <==> l.allobj && m.obj >= 0 && m.readable && (l.lastobj >= 0 ==> m.obj == l.lastobj))
            && (l'.allobj ==>
                  && l'.lastobj == m.obj
                  && l'.texts == ScanAll(l.Track(w), m.syms, l.q.At(w).size).texts
                  && l'.dup == ScanAll(l.Track(w), m.syms, l.q.At(w).size).dup)
  {
  }

  /** A kept member keeps the judgement right. */
  lemma JudgedKept(l: Ledger, l': Ledger, ms: seq<Member>, goes: seq<Option<Where>>, n: nat, k: nat)
    requires k + 1 == n <= |ms| == |goes| && goes[k].Some? && Judged(l, ms, goes, k)
    requires l'.allobj <==> l.allobj && ms[k].obj >= 0 && ms[k].readable && (l.lastobj >= 0 ==> ms[k].obj == l.lastobj)
    requires l'.allobj ==>
             l'.lastobj == ms[k].obj && Tracks(l'.texts, l'.dup, KeptTexts(ms, goes, k) + TextsOf(ms[k].syms))
    ensures Judged(l', ms, goes, n)
  {
    TypeNext(l, ms, goes, n, k);
    assert KeptTexts(ms, goes, n) == KeptTexts(ms, goes, k) + TextsOf(ms[k].syms);
    if l'.allobj {
      forall i | 0 <= i < n && goes[i].Some?
        ensures l'.lastobj == ms[i].obj
      {
        if i < k {
          assert ms[i].obj == ms[k].obj;
        }
      }
    }
  }

  /** A member left out changes nothing. */
  lemma JudgedSkipped(l: Ledger, ms: seq<Member>, goes: seq<Option<Where>>, n: nat, k: nat)
    requires k + 1 == n <= |ms| == |goes| && goes[k].None? && Judged(l, ms, goes, k)
    ensures Judged(l, ms, goes, n)
  {
    assert KeptTexts(ms, goes, n) == KeptTexts(ms, goes, k);
    assert OneType(ms, goes, n) <==> OneType(ms, goes, k);
  }

  lemma {:induction false} FiledJudged(ms: seq<Member>, goes: seq<Option<Where>>, n: nat)
    requires n <= |ms| == |goes|
    ensures Judged(Filed(ms, goes, n), ms, goes, n)
  {
    if n > 0 {
      var k := n - 1;
      var l := Filed(ms, goes, k);
      FiledJudged(ms, goes, k);
      match goes[k] {
        case Some(w) =>
          PlacedFields(l, w, ms[k]);
          if l.allobj {
            ScanTracks(l.Track(w), ms[k].syms, l.q.At(w).size, KeptTexts(ms, goes, k));
          }
          JudgedKept(l, l.Placed(w, ms[k]), ms, goes, n, k);
        case None =>
          JudgedSkipped(l, ms, goes, n, k);
      }
    }
  }

  /**
   The move command leaves the archive alone exactly when all members kept are objects of
   one type and a text symbol is defined twice; otherwise it writes the sorted members,
   with a directory exactly when they are all objects of one type.
   */
  lemma OutcomeExact(ms: seq<Member>, goes: seq<Option<Where>>, f: Layout)
    requires |ms| == |goes| && Proper(f) && Fits(Sorted(ms, goes, |ms|))
    ensures var c, n := Sorted(ms, goes, |ms|), |ms|;
            Outcome(ms, goes, f) ==
            if !OneType(ms, goes, n) then Some(Plain(f, c))
            else if Distinct(KeptTexts(ms, goes, n)) then Some(Indexed(f, c))
            else None
  {
    FiledJudged(ms, goes, |ms|);
    FiledMembers(ms, goes, |ms|);
  }
}
