/**
 The line array of `ed`: entry 0 stands for "before the first line", entries 1 to
 `dol` hold the store addresses of the lines, and the low bit of an entry marks the
 line for a global command.
 */
module EdLines {

  predicate Marked(e: int) {
    e % 2 == 1
  }

  /** `e & ~01` */
  function Unmark(e: int): int {
    e - e % 2
  }

  function UnmarkAll(s: seq<int>): (r: seq<int>)
    ensures |r| == |s| && forall k :: 0 <= k < |s| ==> r[k] == Unmark(s[k])
  {
    if s == [] then [] else UnmarkAll(s[..|s| - 1]) + [Unmark(s[|s| - 1])]
  }

  /**
   The move of `ed`, on the entries of the line array: entries `i` to `j` are taken
   out and put back after entry `t`. Entry 0 stands for the place before line one.
   */
  function MoveAfter(e: seq<int>, i: nat, j: nat, t: nat): seq<int>
    requires 1 <= i <= j < |e| && t < |e| && (t < i || t > j)
  {
    var block := e[i..j + 1];
    var rest := e[..i] + e[j + 1..];
    var pos := if t < i then t + 1 else t + 1 - |block|;
    rest[..pos] + block + rest[pos..]
  }

  /** Entries `i` to `j` taken out. */
  function Removed(e: seq<int>, i: nat, j: nat): seq<int>
    requires 1 <= i <= j < |e|
  {
    e[..i] + e[j + 1..]
  }

  /** New entries put after entry `at`. */
  function Inserted(e: seq<int>, at: nat, added: seq<int>): seq<int>
    requires at < |e|
  {
    e[..at + 1] + added + e[at + 1..]
  }

  /** Entries `i` to `j` without their marks. */
  function MarksCleared(e: seq<int>, i: nat, j: nat): (r: seq<int>)
    requires 1 <= i <= j < |e|
    ensures |r| == |e|
  {
    e[..i] + UnmarkAll(e[i..j + 1]) + e[j + 1..]
  }

  /** Two adjacent stretches swapped. */
  function Exchanged(s: seq<int>, lo: nat, mid: nat, hi: nat): (r: seq<int>)
    requires lo <= mid <= hi <= |s|
    ensures |r| == |s|
  {
    s[..lo] + (s[mid..hi] + s[lo..mid]) + s[hi..]
  }

  /** Moving rearranges the entries, keeps line zero in place and loses none. */
  lemma MoveAfterKeeps(e: seq<int>, i: nat, j: nat, t: nat)
    requires 1 <= i <= j < |e| && t < |e| && (t < i || t > j)
    ensures |MoveAfter(e, i, j, t)| == |e| && MoveAfter(e, i, j, t)[0] == e[0]
    ensures multiset(MoveAfter(e, i, j, t)) == multiset(e)
  {
    var block := e[i..j + 1];
    var rest := e[..i] + e[j + 1..];
    var pos := if t < i then t + 1 else t + 1 - |block|;
    assert e == e[..i] + block + e[j + 1..];
    assert rest == rest[..pos] + rest[pos..];
    assert multiset(e) == multiset(rest) + multiset(block);
    assert multiset(rest) == multiset(rest[..pos]) + multiset(rest[pos..]);
    assert multiset(MoveAfter(e, i, j, t)) == multiset(rest) + multiset(block);
  }

  /** A move is a swap of the lines moved with the lines they pass. */
  lemma MoveIsExchange(e: seq<int>, i: nat, j: nat, t: nat)
    requires 1 <= i <= j < |e| && t < |e| && (t < i || t > j)
    ensures t < i ==> MoveAfter(e, i, j, t) == Exchanged(e, t + 1, i, j + 1)
    ensures t > j ==> MoveAfter(e, i, j, t) == Exchanged(e, i, j + 1, t + 1)
  {
    var rest := e[..i] + e[j + 1..];
    if t < i {
      assert rest[..t + 1] == e[..t + 1] && rest[t + 1..] == e[t + 1..i] + e[j + 1..];
    } else {
      var pos := t + 1 - (j + 1 - i);
      assert rest[..pos] == e[..i] + e[j + 1..t + 1] && rest[pos..] == e[t + 1..];
    }
  }

  /** The first `n` of the new entries are in. */
  ghost predicate Grown(e: seq<int>, at: nat, added: seq<int>, n: nat, e': seq<int>) {
    at < |e| && n <= |added| && e' == Inserted(e, at, added[..n])
  }

  lemma InsertedNone(e: seq<int>, at: nat, added: seq<int>)
    requires at < |e|
    ensures Grown(e, at, added, 0, e)
  {
  }

  lemma InsertedSnoc(e: seq<int>, at: nat, added: seq<int>, n: nat, e': seq<int>)
    requires n < |added| && Grown(e, at, added, n, e')
    ensures at + n < |e'| && Grown(e, at, added, n + 1, Inserted(e', at + n, [added[n]]))
  {
    assert e'[..at + n + 1] == e[..at + 1] + added[..n] && e'[at + n + 1..] == e[at + 1..];
    assert added[..n + 1] == added[..n] + [added[n]];
  }

  /** Entries put at the end and moved after entry `at` are entries put after entry `at`. */
  lemma AppendThenMove(e: seq<int>, at: nat, added: seq<int>)
    requires at < |e| && added != []
    ensures MoveAfter(Inserted(e, |e| - 1, added), |e|, |e| + |added| - 1, at) == Inserted(e, at, added)
  {
    assert Inserted(e, |e| - 1, added) == e + added;
    MoveIsExchange(e + added, |e|, |e| + |added| - 1, at);
  }

  /** `r` is `s` with the stretch from `i` up to `j` reversed. */
  ghost predicate Mirrored(s: seq<int>, r: seq<int>, i: nat, j: nat) {
    && i <= j <= |s| == |r|
    && (forall k :: 0 <= k < i || j <= k < |s| ==> r[k] == s[k])
    && (forall k :: i <= k < j ==> r[k] == s[i + j - 1 - k])
  }

  /** Two adjacent stretches swap when each is reversed and then both together. */
  lemma ThreeReversals(s: seq<int>, s1: seq<int>, s2: seq<int>, s3: seq<int>, lo: nat, mid: nat, hi: nat)
    requires Mirrored(s, s1, lo, mid) && Mirrored(s1, s2, mid, hi) && Mirrored(s2, s3, lo, hi)
    ensures s3 == Exchanged(s, lo, mid, hi)
  {
    var r := Exchanged(s, lo, mid, hi);
    forall k | 0 <= k < |s|
      ensures s3[k] == r[k]
    {
      if lo <= k < lo + (hi - mid) {
        assert s3[k] == s2[lo + hi - 1 - k] == s1[mid + (k - lo)] == s[mid + (k - lo)];
      } else if lo + (hi - mid) <= k < hi {
        assert s3[k] == s2[lo + hi - 1 - k] == s1[lo + hi - 1 - k] == s[k - (hi - mid)];
      }
    }
  }

  lemma Join(s: seq<int>, i: nat, j: nat)
    requires i <= j <= |s|
    ensures s == s[..i] + s[i..j] + s[j..]
  {
  }

  lemma ClearDone(s: seq<int>, s': seq<int>, i: nat, j: nat)
    requires 1 <= i <= j < |s| == |s'|
    requires forall k :: 0 <= k < i || j < k < |s| ==> s'[k] == s[k]
    requires forall k :: i <= k <= j ==> s'[k] == Unmark(s[k])
    ensures s' == MarksCleared(s, i, j)
  {
    assert s'[i..j + 1] == UnmarkAll(s[i..j + 1]);
    Join(s', i, j + 1);
  }

  /** Stretches of a prefix. */
  lemma PrefixOf(x: seq<int>, y: seq<int>, z: seq<int>, n: nat)
    requires |x| + |y| <= n <= |x| + |y| + |z|
    ensures (x + y + z)[..n] == x + y + z[..n - |x| - |y|]
  {
  }

  lemma ExchangedPrefix(s: seq<int>, n: nat, lo: nat, mid: nat, hi: nat)
    requires lo <= mid <= hi <= n <= |s|
    ensures Exchanged(s, lo, mid, hi)[..n] == Exchanged(s[..n], lo, mid, hi)
  {
    PrefixOf(s[..lo], s[mid..hi] + s[lo..mid], s[hi..], n);
    assert s[hi..][..n - hi] == s[..n][hi..];
    assert s[..n][mid..hi] == s[mid..hi] && s[..n][lo..mid] == s[lo..mid] && s[..n][..lo] == s[..lo];
  }

  lemma ClearedPrefix(s: seq<int>, n: nat, i: nat, j: nat)
    requires 1 <= i <= j < n <= |s|
    ensures MarksCleared(s, i, j)[..n] == MarksCleared(s[..n], i, j)
  {
    PrefixOf(s[..i], UnmarkAll(s[i..j + 1]), s[j + 1..], n);
    assert s[j + 1..][..n - (j + 1)] == s[..n][j + 1..];
    assert s[..n][i..j + 1] == s[i..j + 1] && s[..n][..i] == s[..i];
  }

  /** Room made at entry `at` for `x` by shifting the entries below `n`. */
  lemma InsertDone(s: seq<int>, s': seq<int>, n: nat, at: nat, x: int)
    requires at < n < |s| == |s'| && s'[at + 1] == x
    requires forall k :: 0 <= k <= at ==> s'[k] == s[k]
    requires forall k :: at + 1 < k <= n ==> s'[k] == s[k - 1]
    ensures s'[..n + 1] == Inserted(s[..n], at, [x])
  {
  }

  /** The entries after `j` shifted down onto `i`. */
  lemma DeleteDone(s: seq<int>, s': seq<int>, i: nat, j: nat, n: nat, n': nat)
    requires 1 <= i <= j < n <= |s| == |s'| && n' == n - (j + 1 - i)
    requires forall k :: 0 <= k < i ==> s'[k] == s[k]
    requires forall k :: i <= k < n' ==> s'[k] == s[k + (j + 1 - i)]
    ensures s'[..n'] == Removed(s[..n], i, j)
  {
  }

  class Buffer {
    var a: array<int>
    var dol: int
    var dot: int

    constructor ()
      ensures Valid() && Entries() == [0] && dot == 0 && fresh(a)
    {
      a := new int[133](_ => 0);
      dol, dot := 0, 0;
    }

    ghost predicate Valid()
      reads this
    {
      0 <= dol && dol + 4 < a.Length && 0 <= dot
    }

    /** Line zero and the addresses of the lines, in order. */
    ghost function Entries(): (s: seq<int>)
      requires Valid()
      reads this, a
      ensures |s| == dol + 1
    {
      a[..][..dol + 1]
    }

    /** `reverse(a1, a2)`: the stretch from `a1` up to but not including `a2`, in place. */
    method Reverse(a1: nat, a2: nat)
      requires 0 < a1 <= a2 <= a.Length
      modifies a
      ensures Mirrored(old(a[..]), a[..], a1, a2)
    {
      var p, q := a1, a2;
      while true
        invariant a1 <= p && q <= a2 && p - a1 == a2 - q && p <= q + 1
        invariant forall k :: 0 <= k < a1 || a2 <= k < a.Length ==> a[k] == old(a[k])
        invariant forall k :: a1 <= k < p ==> a[k] == old(a[a1 + a2 - 1 - k])
        invariant forall k :: q <= k < a2 ==> a[k] == old(a[a1 + a2 - 1 - k])
        invariant forall k :: p <= k < q ==> a[k] == old(a[k])
        decreases q - p
      {
        q := q - 1;
        var t := a[q];
        if q <= p {
          break;
        }
        a[q] := a[p];
        a[p] := t;
        p := p + 1;
      }
    }

    /** The three reversals of `move`. */
    method ReverseThrice(lo: nat, mid: nat, hi: nat)
      requires 0 < lo <= mid <= hi <= a.Length
      modifies a
      ensures a[..] == Exchanged(old(a[..]), lo, mid, hi)
    {
      ghost var s := a[..];
      Reverse(lo, mid);
      ghost var s1 := a[..];
      Reverse(mid, hi);
      ghost var s2 := a[..];
      Reverse(lo, hi);
      ThreeReversals(s, s1, s2, a[..], lo, mid, hi);
    }

    /** Two adjacent stretches change places. */
    method Exchange(lo: nat, mid: nat, hi: nat)
      requires Valid() && 0 < lo <= mid <= hi <= dol + 1
      modifies a
      ensures Entries() == Exchanged(old(Entries()), lo, mid, hi)
    {
      ExchangedPrefix(a[..], dol + 1, lo, mid, hi);
      ReverseThrice(lo, mid, hi);
    }

    /** The marks of lines `i` to `j` cleared. */
    method ClearMarks(i: nat, j: nat)
      requires Valid() && 1 <= i <= j <= dol
      modifies a
      ensures Entries() == MarksCleared(old(Entries()), i, j)
    {
      ClearedPrefix(a[..], dol + 1, i, j);
      ClearBits(i, j);
    }

    /** The marking bits of entries `i` to `j` cleared one by one. */
    method ClearBits(i: nat, j: nat)
      requires 1 <= i <= j < a.Length
      modifies a
      ensures a[..] == MarksCleared(old(a[..]), i, j)
    {
      var k := i;
      while k <= j
        invariant i <= k <= j + 1
        invariant forall p :: 0 <= p < i || k <= p < a.Length ==> a[p] == old(a[p])
        invariant forall p :: i <= p < k ==> a[p] == Unmark(old(a[p]))
      {
        a[k] := Unmark(a[k]);
        k := k + 1;
      }
      ClearDone(old(a[..]), a[..], i, j);
    }

    /** Lines `i` to `j` moved towards the start; nothing to do if they follow `adt` already. */
    method Backward(i: nat, j: nat, adt: nat)
      requires Valid() && adt < i <= j <= dol
      modifies a
      ensures Entries() == MoveAfter(old(Entries()), i, j, adt)
    {
      MoveIsExchange(Entries(), i, j, adt);
      if adt + 1 != i {
        Exchange(adt + 1, i, j + 1);
      }
    }

    /** Lines `i` to `j` moved towards the end. */
    method Forward(i: nat, j: nat, adt: nat)
      requires Valid() && 1 <= i <= j < adt <= dol
      modifies a
      ensures Entries() == MoveAfter(old(Entries()), i, j, adt)
    {
      MoveIsExchange(Entries(), i, j, adt);
      Exchange(i, j + 1, adt + 1);
    }

    /**
     The rotation that `move` and its copy form share: lines `i` to `j` go after line
     `adt`, unless that lies among them, and dot is left on the last of them.
     */
    method Rotate(i: nat, j: nat, adt: nat) returns (ok: bool)
      requires Valid() && 1 <= i <= j <= dol && adt <= dol
      modifies this`dot, a
      ensures Valid() && dol == old(dol)
      ensures ok <==> adt < i || adt > j
      ensures ok ==> Entries() == MoveAfter(old(Entries()), i, j, adt)
      ensures ok ==> dot == if adt < i then adt + (j - i + 1) else adt
      ensures !ok ==> Entries() == old(Entries())
    {
      ok := true;
      if adt < i {
        dot := adt + (j + 1 - i);
        Backward(i, j, adt);
      } else if adt >= j + 1 {
        dot := adt;
        Forward(i, j, adt);
      } else {
        ok := false;
      }
    }

    /**
     `move` without copying: lines `addr1` to `addr2` lose their marks and go after line
     `adt`, dot on the last of them; a target inside them is an error.
     */
    method Move(addr1: nat, addr2: nat, adt: nat) returns (ok: bool)
      requires Valid() && 1 <= addr1 <= addr2 <= dol && adt <= dol
      modifies this`dot, a
      ensures Valid() && dol == old(dol)
      ensures ok <==> adt < addr1 || adt > addr2
      ensures ok ==> Entries() == MoveAfter(MarksCleared(old(Entries()), addr1, addr2), addr1, addr2, adt)
      ensures !ok ==> Entries() == MarksCleared(old(Entries()), addr1, addr2)
      ensures ok ==> dot == if adt < addr1 then adt + (addr2 - addr1 + 1) else adt
    {
      ClearMarks(addr1, addr2);
      ok := Rotate(addr1, addr2, adt);
    }

    /** `append`: the new addresses go in one by one after entry `at`, shifting the rest up. */
    method Append(at: nat, addrs: seq<int>)
      requires Valid() && at <= dol
      modifies this, a
      ensures Valid() && (a == old(a) || fresh(a))
      ensures Entries() == Inserted(old(Entries()), at, addrs)
      ensures dot == at + |addrs|
    {
      ghost var was := Entries();
      dot := at;
      var n := 0;
      InsertedNone(was, at, addrs);
      while n < |addrs|
        invariant 0 <= n <= |addrs| && Valid() && (a == old(a) || fresh(a))
        invariant dot == at + n && Grown(was, at, addrs, n, Entries())
      {
        if dol + 5 >= a.Length {
          Grow();
        }
        InsertedSnoc(was, at, addrs, n, Entries());
        InsertAfterDot(addrs[n]);
        n := n + 1;
      }
      assert addrs[..n] == addrs;
    }

    /** The reallocation in `append`. */
    method Grow()
      requires Valid()
      modifies this`a
      ensures Valid() && fresh(a) && dol + 5 < a.Length && Entries() == old(Entries())
    {
      var b := new int[a.Length + 512];
      forall k | 0 <= k < a.Length {
        b[k] := a[k];
      }
      a := b;
    }

    /** One turn of `append`: make room after dot and put the new entry there. */
    method InsertAfterDot(tl: int)
      requires Valid() && dot <= dol && dol + 5 < a.Length
      modifies this`dol, this`dot, a
      ensures Valid() && dol == old(dol) + 1 && dot == old(dot) + 1
      ensures Entries() == Inserted(old(Entries()), old(dot), [tl])
    {
      ghost var s, n, at := a[..], dol + 1, dot;
      dol := dol + 1;
      dot := dot + 1;
      ShiftUp(dot, dol);
      a[dot] := tl;
      InsertDone(s, a[..], n, at, tl);
    }

    /** The copying loop of `append`: entries from `rdot` up to `top` move one place up. */
    method ShiftUp(rdot: nat, top: nat)
      requires 1 <= rdot <= top < a.Length
      modifies a
      ensures forall k :: 0 <= k < rdot ==> a[..][k] == old(a[..])[k]
      ensures forall k :: rdot < k <= top ==> a[..][k] == old(a[..])[k - 1]
    {
      var a1, a2 := top, top + 1;
      while a1 > rdot
        invariant rdot <= a1 <= top && a2 == a1 + 1
        invariant forall k :: 0 <= k <= a1 ==> a[k] == old(a[k])
        invariant forall k :: a1 < k <= top ==> a[k] == old(a[k - 1])
      {
        a2 := a2 - 1;
        a1 := a1 - 1;
        a[a2] := a[a1];
      }
    }

    /** The copy form of `move`: the copies are appended at the end and rotated into place. */
    method CopyLines(adt: nat, copies: seq<int>)
      requires Valid() && adt <= dol && copies != []
      modifies this, a
      ensures Valid() && (a == old(a) || fresh(a))
      ensures Entries() == Inserted(old(Entries()), adt, copies)
      ensures dot == adt + |copies|
    {
      AppendThenMove(Entries(), adt, copies);
      var ad1 := dol + 1;
      Append(dol, copies);
      var ok := Rotate(ad1, dol, adt);
    }

    /** A line rewritten: its entry becomes the address of the new text. */
    method Replace(i: nat, addr: int)
      requires Valid() && 1 <= i <= dol
      modifies this`dot, a
      ensures Valid() && dol == old(dol) && Entries() == old(Entries())[i := addr] && dot == i
    {
      a[i] := addr;
      dot := i;
    }

    /** `init`: no line is left. */
    method Wipe()
      requires Valid()
      modifies this`dol, this`dot
      ensures Valid() && Entries() == old(Entries())[..1] && dot == 0
    {
      dol, dot := 0, 0;
    }

    /** `rdelete`: lines `ad1` to `ad2` go, dot on the line that follows or the last one. */
    method RDelete(ad1: nat, ad2: nat)
      requires Valid() && 1 <= ad1 <= ad2 <= dol
      modifies this`dol, this`dot, a
      ensures Valid() && dol == old(dol) - (ad2 + 1 - ad1)
      ensures Entries() == Removed(old(Entries()), ad1, ad2)
      ensures dot == if ad1 > dol then dol else ad1
    {
      ghost var s, n := a[..], dol + 1;
      var a3 := dol;
      dol := dol - (ad2 + 1 - ad1);
      ShiftDown(ad1, ad2, a3);
      DeleteDone(s, a[..], ad1, ad2, n, dol + 1);
      dot := if ad1 > dol then dol else ad1;
    }

    /** The copying loop of `rdelete`, which copies at least one entry. */
    method ShiftDown(ad1: nat, ad2: nat, a3: nat)
      requires 1 <= ad1 <= ad2 <= a3 && a3 + 1 < a.Length
      modifies a
      ensures forall k :: 0 <= k < ad1 ==> a[..][k] == old(a[..])[k]
      ensures forall k :: ad1 <= k <= a3 - (ad2 + 1 - ad1) ==> a[..][k] == old(a[..])[k + (ad2 + 1 - ad1)]
    {
      var a1, a2 := ad1, ad2 + 1;
      a[a1] := a[a2];
      a1, a2 := a1 + 1, a2 + 1;
      while a2 <= a3
        invariant ad2 + 2 <= a2 <= a3 + 2 && a1 - ad1 == a2 - (ad2 + 1) && (a2 == a3 + 2 ==> ad2 == a3)
        invariant forall k :: 0 <= k < ad1 || a1 <= k < a.Length ==> a[k] == old(a[k])
        invariant forall k :: ad1 <= k < a1 ==> a[k] == old(a[k + (ad2 + 1 - ad1)])
      {
        a[a1] := a[a2];
        a1, a2 := a1 + 1, a2 + 1;
      }
    }
  }
}
