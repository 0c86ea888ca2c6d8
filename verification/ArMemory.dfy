/**
 The memory of `ar`: a command is a sequence of allocations, with members coming into core
 in between, and an allocation that falls short has members spilled until it succeeds.
 */
module ArMemory {

  /** An allocation, or a member that has come into core. */
  datatype Event = Allot | Keep

  function Allots(es: seq<Event>): nat {
    if es == [] then 0 else Allots(es[..|es| - 1]) + if es[|es| - 1].Allot? then 1 else 0
  }

  function Keeps(es: seq<Event>): nat {
    if es == [] then 0 else Keeps(es[..|es| - 1]) + if es[|es| - 1].Keep? then 1 else 0
  }

  /** How many members the first `n` allocations need spilled. */
  function Spent(pressure: nat -> nat, n: nat): nat {
    if n == 0 then 0 else Spent(pressure, n - 1) + pressure(n - 1)
  }

  /** Up to every allocation, the members spilled are no more than those that have come into core before it. */
  ghost predicate Lasts(pressure: nat -> nat, es: seq<Event>) {
    forall k :: 0 <= k < |es| && es[k].Allot? ==> LastsAt(pressure, es, k)
  }

  ghost predicate LastsAt(pressure: nat -> nat, es: seq<Event>, k: int)
    requires 0 <= k < |es|
  {
    Spent(pressure, Allots(es[..k]) + 1) <= Keeps(es[..k])
  }

  lemma Snoc(es: seq<Event>, e: Event)
    ensures Allots(es + [e]) == Allots(es) + if e.Allot? then 1 else 0
    ensures Keeps(es + [e]) == Keeps(es) + if e.Keep? then 1 else 0
  {
    assert (es + [e])[..|es|] == es;
  }

  lemma LastsSnoc(pressure: nat -> nat, es: seq<Event>, e: Event)
    ensures Lasts(pressure, es + [e]) <==>
            Lasts(pressure, es) && (e.Allot? ==> Spent(pressure, Allots(es) + 1) <= Keeps(es))
  {
    var more := es + [e];
    assert more[..|es|] == es;
    forall k | 0 <= k < |es|
      ensures LastsAt(pressure, more, k) <==> LastsAt(pressure, es, k)
    {
      assert more[..k] == es[..k];
    }
    if Lasts(pressure, more) {
      forall k | 0 <= k < |es| && es[k].Allot?
        ensures LastsAt(pressure, es, k)
      {
        assert more[k].Allot?;
      }
      assert e.Allot? ==> LastsAt(pressure, more, |es|);
    }
  }

  /** If memory lasts for the whole, it lasts for the beginning. */
  lemma LastsPart(pressure: nat -> nat, es: seq<Event>, n: nat)
    requires n <= |es| && Lasts(pressure, es)
    ensures Lasts(pressure, es[..n])
  {
    forall k | 0 <= k < n && es[..n][k].Allot?
      ensures LastsAt(pressure, es[..n], k)
    {
      assert es[..n][..k] == es[..k];
      assert LastsAt(pressure, es, k);
    }
  }

  /** Memory that never falls short lasts for ever. */
  lemma {:induction false} NoPressure(pressure: nat -> nat, n: nat)
    requires forall k :: pressure(k) == 0
    ensures Spent(pressure, n) == 0
  {
    if n > 0 {
      NoPressure(pressure, n - 1);
    }
  }

  /** All that was to happen has happened; or all up to some allocation, which failed. */
  ghost predicate Went(was: seq<Event>, now: seq<Event>, es: seq<Event>, ok: bool) {
    (ok && now == was + es) || (!ok && exists k: nat :: FailedAt(was, now, es, k))
  }

  ghost predicate FailedAt(was: seq<Event>, now: seq<Event>, es: seq<Event>, k: nat) {
    k < |es| && es[k].Allot? && now == was + es[..k + 1]
  }

  lemma WentThen(was: seq<Event>, mid: seq<Event>, now: seq<Event>, es: seq<Event>, fs: seq<Event>, ok: bool)
    requires Went(was, mid, es, true) && Went(mid, now, fs, ok)
    ensures Went(was, now, es + fs, ok)
  {
    if !ok {
      var k: nat :| FailedAt(mid, now, fs, k);
      assert (es + fs)[..|es| + k + 1] == es + fs[..k + 1];
      assert FailedAt(was, now, es + fs, |es| + k);
    }
  }

  lemma WentShort(was: seq<Event>, now: seq<Event>, es: seq<Event>, fs: seq<Event>)
    requires Went(was, now, es, false)
    ensures Went(was, now, es + fs, false)
  {
    var k: nat :| FailedAt(was, now, es, k);
    assert (es + fs)[..k + 1] == es[..k + 1];
    assert FailedAt(was, now, es + fs, k);
  }

  lemma WentNothing(was: seq<Event>)
    ensures Went(was, was, [], true)
  {
  }

  // ---- what one event does, with `core` members in core ----

  /** The members in core are those that came and were not spilled. */
  ghost predicate Balanced(pressure: nat -> nat, es: seq<Event>, allocs: nat, core: nat) {
    allocs == Allots(es) && Lasts(pressure, es) && core + Spent(pressure, allocs) == Keeps(es)
  }

  lemma BalancedStart(pressure: nat -> nat)
    ensures Balanced(pressure, [], 0, 0)
  {
  }

  lemma Allotted(pressure: nat -> nat, es: seq<Event>, allocs: nat, core: nat, core': nat)
    requires Balanced(pressure, es, allocs, core) && core' + pressure(allocs) == core
    ensures Balanced(pressure, es + [Allot], allocs + 1, core')
  {
    Snoc(es, Allot);
    LastsSnoc(pressure, es, Allot);
  }

  lemma NotAllotted(pressure: nat -> nat, es: seq<Event>, allocs: nat, core: nat)
    requires Balanced(pressure, es, allocs, core) && pressure(allocs) > core
    ensures !Lasts(pressure, es + [Allot])
  {
    LastsSnoc(pressure, es, Allot);
  }

  lemma Kept(pressure: nat -> nat, es: seq<Event>, allocs: nat, core: nat)
    requires Balanced(pressure, es, allocs, core)
    ensures Balanced(pressure, es + [Keep], allocs, core + 1)
  {
    Snoc(es, Keep);
    LastsSnoc(pressure, es, Keep);
  }

  // ---- the queues as far as memory goes ----

  /** How many members of a queue are in core, and whether it has a spill file. */
  datatype Shelf = Shelf(core: nat, paged: bool)

  /** A queue gives up a member at the n-th attempt if it has one, and a file for it. */
  predicate Gives(creatable: nat -> bool, q: Shelf, n: nat) {
    q.core > 0 && (q.paged || creatable(n))
  }

  function Taken(q: Shelf): Shelf {
    if q.core == 0 then q else Shelf(q.core - 1, true)
  }

  /** An empty queue is passed over without an attempt. */
  function Attempts(q: Shelf): nat {
    if q.core == 0 then 0 else 1
  }

  /** The three queues, in the order in which they are asked. */
  datatype Shelves = Shelves(start: Shelf, middle: Shelf, end: Shelf) {
    function Core(): nat {
      start.core + middle.core + end.core
    }

    function Tries(): nat {
      Attempts(start) + Attempts(middle) + Attempts(end)
    }

    /** No queue gives up a member, with attempts counted from the n-th. */
    predicate Stuck(creatable: nat -> bool, n: nat) {
      && !Gives(creatable, start, n) && !Gives(creatable, middle, n + Attempts(start))
      && !Gives(creatable, end, n + Attempts(start) + Attempts(middle))
    }

    /** One member is taken from the first queue that gives one up. */
    function Spilled(creatable: nat -> bool, n: nat): Shelves {
      if Gives(creatable, start, n) then this.(start := Taken(start))
      else if Gives(creatable, middle, n + Attempts(start)) then this.(middle := Taken(middle))
      else if Gives(creatable, end, n + Attempts(start) + Attempts(middle)) then this.(end := Taken(end))
      else this
    }
  }

  /** If every spill file can be created, nothing is given up only if nothing is left. */
  lemma StuckEmpty(s: Shelves, creatable: nat -> bool, n: nat)
    requires forall n :: creatable(n)
    ensures s.Stuck(creatable, n) <==> s.Core() == 0
  {
  }

  /** Some allocation falls short; and if every file can be created, more was needed than had come into core. */
  ghost predicate Wanting(pressure: nat -> nat, creatable: nat -> bool, es: seq<Event>) {
    (exists n :: pressure(n) > 0) && ((forall n :: creatable(n)) ==> !Lasts(pressure, es))
  }

  /** An allocation that wants `want` members out of core gets them, or all that the queues give up. */
  ghost predicate Drawn(creatable: nat -> bool, want: nat, core: nat, s: Shelves, n: int, ok: bool) {
    || (ok && s.Core() + want == core)
    || (!ok && n >= 0 && s.Stuck(creatable, n) && s.Core() <= core < s.Core() + want)
  }

  /** An allocation that still wants `left` members out of core, or that has just failed. */
  ghost predicate Drawing(creatable: nat -> bool, want: nat, core: nat, s: Shelves, spills: nat, left: nat, ok: bool) {
    || (ok && s.Core() + want == core + left && left <= want)
    || (!ok && Drawn(creatable, want, core, s, spills - s.Tries(), false))
  }

  /** One attempt. */
  lemma DrawOne(creatable: nat -> bool, want: nat, core: nat, s: Shelves, n: nat, left: nat, s': Shelves, n': nat,
                ok: bool)
    requires Drawing(creatable, want, core, s, n, left, true) && left > 0 && s' == s.Spilled(creatable, n)
    requires (ok <==> !s.Stuck(creatable, n)) && (!ok ==> n' == n + s'.Tries())
    ensures Drawing(creatable, want, core, s', n', left - 1, ok)
  {
  }

  lemma DrawEnd(creatable: nat -> bool, want: nat, core: nat, s: Shelves, n: nat, left: nat, ok: bool)
    requires Drawing(creatable, want, core, s, n, left, ok) && (ok ==> left == 0)
    ensures Drawn(creatable, want, core, s, n - s.Tries(), ok)
  {
  }

  /** What an allocation does to the balance. */
  lemma AllotOutcome(pressure: nat -> nat, creatable: nat -> bool, es: seq<Event>, allocs: nat, core: nat, s: Shelves,
                     n: int, ok: bool)
    requires Balanced(pressure, es, allocs, core) && Drawn(creatable, pressure(allocs), core, s, n, ok)
    ensures if ok then Balanced(pressure, es + [Allot], allocs + 1, s.Core())
            else Wanting(pressure, creatable, es + [Allot])
  {
    if ok {
      Allotted(pressure, es, allocs, core, s.Core());
    } else if forall n :: creatable(n) {
      StuckEmpty(s, creatable, n);
      NotAllotted(pressure, es, allocs, core);
    }
  }

  /** A run that failed could not have gone on, if every spill file could be created. */
  lemma WentWanting(pressure: nat -> nat, creatable: nat -> bool, now: seq<Event>, es: seq<Event>)
    requires Went([], now, es, false) && Wanting(pressure, creatable, now)
    ensures Wanting(pressure, creatable, es)
  {
    var k: nat :| FailedAt([], now, es, k);
    assert now == es[..k + 1];
    if Lasts(pressure, es) {
      LastsPart(pressure, es, k + 1);
    }
  }
}
