/**
 The move command of `ar`: named members go before or after a pivot member, and all
 others keep their order.
 */
module ArMove {
  import opened ArFormat
  import opened ArDirectory
  import opened ArTool
  import opened ArMemory

  const SYMDEF := "__.SYMDEF"

  function Names(ms: seq<Member>): (r: seq<string>)
    ensures |r| == |ms| && forall k :: 0 <= k < |ms| ==> r[k] == ms[k].name
  {
    if ms == [] then [] else Names(ms[..|ms| - 1]) + [ms[|ms| - 1].name]
  }

  // ---------------------------------------------------------------- the pivot

  /** The first place a name is found, or the length. */
  function First(names: seq<string>, name: string): (p: nat)
    ensures p <= |names| && (p < |names| ==> names[p] == name)
    ensures forall k :: 0 <= k < p ==> names[k] != name
  {
    if names == [] || names[0] == name then 0
    else
      var p := 1 + First(names[1..], name);
      assert forall k :: 1 <= k < p ==> names[k] == names[1..][k - 1];
      p
  }

  datatype Position = After(pivot: string) | Before(pivot: string) | AtEnd

  /** Where the members that follow the moved ones begin. */
  function SplitAt(names: seq<string>, at: Position): (n: nat) {
    match at
    case After(pivot) => if First(names, pivot) < |names| then First(names, pivot) + 1 else |names|
    case Before(pivot) => First(names, pivot)
    case AtEnd => |names|
  }

  /** The state that `bamatch` keeps between calls, and whether the split is here. */
  method BaMatch(state: nat, file: string, at: Position) returns (state': nat, here: bool)
    requires state <= 2
    ensures state == 2 ==> state' == 2 && !here
    ensures state == 1 ==> state' == 2 && here
    ensures state == 0 && at.After? ==> !here && state' == if file == at.pivot then 1 else 0
    ensures state == 0 && at.Before? ==> here == (file == at.pivot) && state' == if here then 2 else 0
    ensures state == 0 && at.AtEnd? ==> !here && state' == 0
  {
    state', here := state, false;
    match state {
      case 0 =>
        if at.After? {
          if file == at.pivot {
            state' := 1;
          }
        } else if at.Before? {
          if file == at.pivot {
            state', here := 2, true;
          }
        }
      case 1 =>
        state', here := 2, true;
      case _ =>
    }
  }

  /** The state before member `i` is looked at. */
  function StateAt(names: seq<string>, at: Position, i: nat): nat {
    match at
    case After(pivot) => var p := First(names, pivot); if i <= p then 0 else if i == p + 1 then 1 else 2
    case Before(pivot) => if i <= First(names, pivot) then 0 else 2
    case AtEnd => 0
  }

  // ---------------------------------------------------------------- the files named

  /** The names not yet used up. */
  function Left(files: seq<Option<string>>): multiset<string> {
    if files == [] then multiset{}
    else Left(files[..|files| - 1]) +
         (if files[|files| - 1].Some? then multiset{files[|files| - 1].value} else multiset{})
  }

  lemma {:induction false} LeftUpdate(files: seq<Option<string>>, k: nat)
    requires k < |files| && files[k].Some?
    ensures Left(files[k := None]) == Left(files) - multiset{files[k].value} && files[k].value in Left(files)
  {
    var n := |files| - 1;
    if k < n {
      LeftUpdate(files[..n], k);
      assert files[k := None][..n] == files[..n][k := None];
      var t := if files[n].Some? then multiset{files[n].value} else multiset{};
      TakeOne(Left(files[..n]), t, files[k].value);
    } else {
      assert files[k := None][..n] == files[..n];
    }
  }

  lemma TakeOne(s: multiset<string>, t: multiset<string>, v: string)
    requires v in s
    ensures (s + t) - multiset{v} == (s - multiset{v}) + t
  {
  }

  lemma {:induction false} LeftFinds(files: seq<Option<string>>, name: string)
    requires forall k :: 0 <= k < |files| ==> files[k] != Some(name)
    ensures name !in Left(files)
  {
    if files != [] {
      assert files[|files| - 1] != Some(name);
      LeftFinds(files[..|files| - 1], name);
    }
  }

  /** `match`: a name is used up by the first member that has it. */
  method Match(files: seq<Option<string>>, name: string) returns (hit: bool, files': seq<Option<string>>)
    ensures hit <==> name in Left(files)
    ensures Left(files') == if hit then Left(files) - multiset{name} else Left(files)
  {
    var i := 0;
    while i < |files|
      invariant 0 <= i <= |files| && forall k :: 0 <= k < i ==> files[k] != Some(name)
    {
      if files[i].Some? && files[i].value == name {
        LeftUpdate(files, i);
        return true, files[i := None];
      }
      i := i + 1;
    }
    LeftFinds(files, name);
    return false, files;
  }

  // ---------------------------------------------------------------- where members go

  /** A member is moved if its name was given more often than it occurred before. */
  predicate Moved(names: seq<string>, files: multiset<string>, k: nat)
    requires k < |names|
  {
    names[k] in files - multiset(names[..k])
  }

  /** The queue for member `k`; none for a symbol directory that is made anew. */
  function Goes(names: seq<string>, files: multiset<string>, at: Position, k: nat): Option<Where>
    requires k < |names|
  {
    if Moved(names, files, k) then Some(Middle)
    else if k >= SplitAt(names, at) then Some(End)
    else if k == 0 && names[0] == SYMDEF then None
    else Some(Start)
  }

  /** Where every member goes. */
  function Routes(names: seq<string>, files: multiset<string>, at: Position): (r: seq<Option<Where>>)
    ensures |r| == |names| && forall k :: 0 <= k < |names| ==> r[k] == Goes(names, files, at, k)
  {
    seq(|names|, k requires 0 <= k < |names| => Goes(names, files, at, k))
  }

  /** The members among the first `n` that go to queue `w`, in archive order. */
  function Chosen<T>(ms: seq<T>, goes: seq<Option<Where>>, n: nat, w: Where): seq<T>
    requires n <= |ms| == |goes|
  {
    if n == 0 then []
    else Chosen(ms, goes, n - 1, w) + if goes[n - 1] == Some(w) then [ms[n - 1]] else []
  }

  function Sorted(ms: seq<Member>, goes: seq<Option<Where>>, n: nat): Contents
    requires n <= |ms| == |goes|
  {
    Contents(Chosen(ms, goes, n, Start), Chosen(ms, goes, n, Middle), Chosen(ms, goes, n, End))
  }

  /** What the queues record after the first `n` members. */
  function Filed(ms: seq<Member>, goes: seq<Option<Where>>, n: nat): Ledger
    requires n <= |ms| == |goes|
  {
    if n == 0 then EMPTY
    else
      match goes[n - 1]
      case None => Filed(ms, goes, n - 1)
      case Some(w) => Filed(ms, goes, n - 1).Placed(w, ms[n - 1])
  }

  lemma {:induction false} FiledSound(ms: seq<Member>, goes: seq<Option<Where>>, n: nat)
    requires n <= |ms| == |goes|
    ensures Sound(Filed(ms, goes, n))
  {
    if n == 0 {
      EmptySound();
    } else {
      FiledSound(ms, goes, n - 1);
      if goes[n - 1].Some? {
        PlacedSound(Filed(ms, goes, n - 1), goes[n - 1].value, ms[n - 1]);
      }
    }
  }

  lemma PlacedAt(l: Ledger, w: Where, m: Member, v: Where)
    ensures l.Placed(w, m).q.At(v).placed == l.q.At(v).placed + if v == w then [m] else []
  {
  }

  lemma {:induction false} FiledAt(ms: seq<Member>, goes: seq<Option<Where>>, n: nat, v: Where)
    requires n <= |ms| == |goes|
    ensures Filed(ms, goes, n).q.At(v).placed == Chosen(ms, goes, n, v)
  {
    if n > 0 {
      FiledAt(ms, goes, n - 1, v);
      if goes[n - 1].Some? {
        PlacedAt(Filed(ms, goes, n - 1), goes[n - 1].value, ms[n - 1], v);
      }
    }
  }

  /** Each queue holds the members that go there, in archive order. */
  lemma FiledMembers(ms: seq<Member>, goes: seq<Option<Where>>, n: nat)
    requires n <= |ms| == |goes|
    ensures Filed(ms, goes, n).q.Members() == Sorted(ms, goes, n)
  {
    FiledAt(ms, goes, n, Start);
    FiledAt(ms, goes, n, Middle);
    FiledAt(ms, goes, n, End);
  }

  /** The old symbol directory, if it is left out. */
  ghost function Dropped<T>(ms: seq<T>, goes: seq<Option<Where>>, n: nat): multiset<T>
    requires n <= |ms| == |goes|
  {
    if n > 0 && goes[0] == None then multiset{ms[0]} else multiset{}
  }

  function One(b: bool): nat {
    if b then 1 else 0
  }

  lemma ChosenNext<T>(ms: seq<T>, goes: seq<Option<Where>>, n: nat, k: nat, w: Where, x: T)
    requires k + 1 == n <= |ms| == |goes|
    ensures multiset(Chosen(ms, goes, n, w))[x] == multiset(Chosen(ms, goes, k, w))[x]
            + One(goes[k] == Some(w) && ms[k] == x)
  {
    var s := Chosen(ms, goes, k, w);
    if goes[k] == Some(w) {
      assert Chosen(ms, goes, n, w) == s + [ms[k]];
      assert multiset(s + [ms[k]])[x] == multiset(s)[x] + One(ms[k] == x);
    } else {
      assert Chosen(ms, goes, n, w) == s;
    }
  }

  lemma OneWay(g: Option<Where>, b: bool)
    ensures One(g == Some(Start) && b) + One(g == Some(Middle) && b) + One(g == Some(End) && b)
            + One(g == None && b) == One(b)
  {
    match g {
      case None =>
      case Some(w) =>
        match w {
          case Start =>
          case Middle =>
          case End =>
        }
    }
  }

  lemma DroppedNext<T>(ms: seq<T>, goes: seq<Option<Where>>, n: nat, k: nat, x: T)
    requires k + 1 == n <= |ms| == |goes| && forall k :: 0 < k < |goes| ==> goes[k].Some?
    ensures Dropped(ms, goes, n)[x] == Dropped(ms, goes, k)[x] + One(goes[k] == None && ms[k] == x)
    ensures multiset(ms[..n])[x] == multiset(ms[..k])[x] + One(ms[k] == x)
  {
    assert ms[..n] == ms[..k] + [ms[k]];
  }

  /** How many copies of `x` the queues and the waste hold together. */
  ghost function Copies<T>(ms: seq<T>, goes: seq<Option<Where>>, n: nat, x: T): nat
    requires n <= |ms| == |goes|
  {
    multiset(Chosen(ms, goes, n, Start))[x] + multiset(Chosen(ms, goes, n, Middle))[x]
    + multiset(Chosen(ms, goes, n, End))[x] + Dropped(ms, goes, n)[x]
  }

  lemma {:induction false} ChosenKeeps<T>(ms: seq<T>, goes: seq<Option<Where>>, n: nat, x: T)
    requires n <= |ms| == |goes| && forall k :: 0 < k < |goes| ==> goes[k].Some?
    ensures Copies(ms, goes, n, x) == multiset(ms[..n])[x]
  {
    if n == 0 {
      assert ms[..n] == [];
    } else {
      var k := n - 1;
      ChosenKeeps(ms, goes, k, x);
      ChosenNext(ms, goes, n, k, Start, x);
      ChosenNext(ms, goes, n, k, Middle, x);
      ChosenNext(ms, goes, n, k, End, x);
      DroppedNext(ms, goes, n, k, x);
      OneWay(goes[k], ms[k] == x);
    }
  }

  lemma AllParts(c: Contents)
    ensures multiset(c.All()) == multiset(c.start) + multiset(c.middle) + multiset(c.end)
  {
  }

  // ---------------------------------------------------------------- the command

  /** What the command is given: the names in the archive, the names to move, and the pivot. */
  datatype Job = Job(names: seq<string>, files: multiset<string>, at: Position)

  function RoutesOf(job: Job): (r: seq<Option<Where>>)
    ensures |r| == |job.names|
  {
    Routes(job.names, job.files, job.at)
  }

  lemma RoutesSome(job: Job, k: nat)
    requires 0 < k < |job.names|
    ensures RoutesOf(job)[k].Some?
  {
  }

  /** No member is lost or doubled, except that the old symbol directory is left out. */
  lemma SortedKeeps(ms: seq<Member>, job: Job)
    requires job.names == Names(ms)
    ensures multiset(Sorted(ms, RoutesOf(job), |ms|).All()) + Dropped(ms, RoutesOf(job), |ms|) == multiset(ms)
  {
    var goes := RoutesOf(job);
    forall k | 0 < k < |goes|
      ensures goes[k].Some?
    {
      RoutesSome(job, k);
    }
    AllKept(ms, goes);
  }

  lemma AllKept(ms: seq<Member>, goes: seq<Option<Where>>)
    requires |ms| == |goes| && forall k :: 0 < k < |goes| ==> goes[k].Some?
    ensures multiset(Sorted(ms, goes, |ms|).All()) + Dropped(ms, goes, |ms|) == multiset(ms)
  {
    AllParts(Sorted(ms, goes, |ms|));
    forall x
      ensures Copies(ms, goes, |ms|, x) == multiset(ms)[x]
    {
      ChosenKeeps(ms, goes, |ms|, x);
      assert ms[..|ms|] == ms;
    }
  }

  /** What the command knows before it looks at member `i`. */
  ghost predicate Watching(job: Job, i: nat, left: seq<Option<string>>, state: nat, ended: bool) {
    && i <= |job.names| && Left(left) == job.files - multiset(job.names[..i])
    && state == StateAt(job.names, job.at, i) && ended == (SplitAt(job.names, job.at) < i)
  }

  /** The first members have been filed, as far as memory allowed. */
  ghost predicate Filing(ar: Ar, ms: seq<Member>, goes: seq<Option<Where>>, i: nat)
    reads ar, ar.astart, ar.amiddle, ar.aend
  {
    i <= |ms| == |goes| && ar.View() == Filed(ms, goes, i)
  }

  ghost predicate Intact(ar: Ar)
    reads ar, ar.astart, ar.amiddle, ar.aend, ar.astart.chain, ar.amiddle.chain, ar.aend.chain
  {
    ar.Valid()
  }

  /** The queues are in order, and as long as memory has lasted they hold the first `i` members. */
  ghost predicate Held(ar: Ar, ms: seq<Member>, goes: seq<Option<Where>>, i: nat, ok: bool)
    reads ar, ar.astart, ar.amiddle, ar.aend, ar.astart.chain, ar.amiddle.chain, ar.aend.chain
  {
    (ok && Intact(ar) && ar.Steady() && Filing(ar, ms, goes, i)) || (!ok && Intact(ar) && ar.Short())
  }

  /** `bamatch` finds the split at exactly one member, if any. */
  lemma StateNext(names: seq<string>, at: Position, i: nat, state: nat, here: bool)
    requires i < |names|
    requires StateAt(names, at, i) == 2 ==> state == 2 && !here
    requires StateAt(names, at, i) == 1 ==> state == 2 && here
    requires StateAt(names, at, i) == 0 && at.After? ==> !here && state == if names[i] == at.pivot then 1 else 0
    requires StateAt(names, at, i) == 0 && at.Before? ==>
             here == (names[i] == at.pivot) && state == if here then 2 else 0
    requires StateAt(names, at, i) == 0 && at.AtEnd? ==> !here && state == 0
    ensures state == StateAt(names, at, i + 1) && here == (SplitAt(names, at) == i)
  {
  }

  lemma LeftNext(names: seq<string>, files: multiset<string>, i: nat)
    requires i < |names|
    ensures names[i] in files - multiset(names[..i]) ==>
              files - multiset(names[..i + 1]) == files - multiset(names[..i]) - multiset{names[i]}
    ensures names[i] !in files - multiset(names[..i]) ==>
              files - multiset(names[..i + 1]) == files - multiset(names[..i])
  {
    assert names[..i + 1] == names[..i] + [names[i]];
  }

  lemma WatchNext(job: Job, i: nat, left: seq<Option<string>>, left': seq<Option<string>>, hit: bool,
                                     state: nat, ended: bool, state': nat, here: bool)
    requires Watching(job, i, left, state, ended) && i < |job.names|
    requires state' == StateAt(job.names, job.at, i + 1) && here == (SplitAt(job.names, job.at) == i)
    requires hit <==> job.names[i] in Left(left)
    requires Left(left') == if hit then Left(left) - multiset{job.names[i]} else Left(left)
    ensures Watching(job, i + 1, left', state', ended || here)
    ensures RoutesOf(job)[i] ==
            if hit then Some(Middle)
            else if ended || here then Some(End)
            else if i == 0 && job.names[0] == SYMDEF then None
            else Some(Start)
  {
    LeftNext(job.names, job.files, i);
  }

  /** Where the next member goes. */
  method NextRoute(name: string, i: nat, at: Position, left: seq<Option<string>>, state: nat, ended: bool,
                   ghost job: Job)
    returns (g: Option<Where>, left': seq<Option<string>>, state': nat, ended': bool)
    requires i < |job.names| && job.names[i] == name && job.at == at && Watching(job, i, left, state, ended)
    ensures Watching(job, i + 1, left', state', ended') && g == RoutesOf(job)[i]
  {
    var here, hit;
    state', here := BaMatch(state, name, at);
    StateNext(job.names, at, i, state', here);
    ended' := ended || here;
    hit, left' := Match(left, name);
    WatchNext(job, i, left, left', hit, state, ended, state', here);
    if hit {
      g := Some(Middle);
    } else if !ended' && i == 0 && name == SYMDEF {
      g := None;
    } else {
      g := Some(if ended' then End else Start);
    }
  }

  function Given(files: seq<string>): (r: seq<Option<string>>)
    ensures Left(r) == multiset(files)
  {
    if files == [] then []
    else
      assert files == files[..|files| - 1] + [files[|files| - 1]];
      Given(files[..|files| - 1]) + [Some(files[|files| - 1])]
  }

  // ---------------------------------------------------------------- the memory it takes

  /** What the first `n` members take. */
  function TurnsNeed(ms: seq<Member>, goes: seq<Option<Where>>, split: nat, n: nat): seq<Event>
    requires n <= |ms| == |goes|
  {
    if n == 0 then []
    else TurnsNeed(ms, goes, split, n - 1)
         + TurnNeeds(Filed(ms, goes, n - 1), goes[n - 1], ms[n - 1], split == n - 1)
  }

  /** Two queues, the members, and a header that finds the end of the archive. */
  function Needs(ms: seq<Member>, goes: seq<Option<Where>>, split: nat): seq<Event>
    requires |ms| == |goes|
  {
    [Allot, Allot] + TurnsNeed(ms, goes, split, |ms|) + [Allot]
  }

  lemma TurnsNeedNext(ms: seq<Member>, goes: seq<Option<Where>>, split: nat, i: nat, j: nat)
    requires j == i + 1 <= |ms| == |goes|
    ensures TurnsNeed(ms, goes, split, j) ==
            TurnsNeed(ms, goes, split, i) + TurnNeeds(Filed(ms, goes, i), goes[i], ms[i], split == i)
  {
    assert j - 1 == i;
  }

  lemma {:induction false} TurnsWent(was: seq<Event>, mid: seq<Event>, now: seq<Event>, ms: seq<Member>,
                                     goes: seq<Option<Where>>, split: nat, i: nat, j: nat, ok: bool)
    requires j == i + 1 <= |ms| == |goes| && Went(was, mid, TurnsNeed(ms, goes, split, i), true)
    requires Went(mid, now, TurnNeeds(Filed(ms, goes, i), goes[i], ms[i], split == i), ok)
    ensures Went(was, now, TurnsNeed(ms, goes, split, j), ok)
    ensures ok || Went(was, now, TurnsNeed(ms, goes, split, |ms|), false)
  {
    var es, fs := TurnsNeed(ms, goes, split, i), TurnNeeds(Filed(ms, goes, i), goes[i], ms[i], split == i);
    TurnsNeedNext(ms, goes, split, i, j);
    WentThen(was, mid, now, es, fs, ok);
    if !ok {
      TurnsShort(was, now, ms, goes, split, j);
    }
  }

  lemma {:induction false} TurnsShort(was: seq<Event>, now: seq<Event>, ms: seq<Member>, goes: seq<Option<Where>>,
                                      split: nat, n: nat)
    requires n <= |ms| == |goes| && Went(was, now, TurnsNeed(ms, goes, split, n), false)
    ensures Went(was, now, TurnsNeed(ms, goes, split, |ms|), false)
    decreases |ms| - n
  {
    if n < |ms| {
      TurnsNeedNext(ms, goes, split, n, n + 1);
      WentShort(was, now, TurnsNeed(ms, goes, split, n), TurnNeeds(Filed(ms, goes, n), goes[n], ms[n], split == n));
      TurnsShort(was, now, ms, goes, split, n + 1);
    }
  }

  /**
   `mcmd`: for every archive, every list of names, every position and every pattern of
   spills, what is written is what the sorted members make. It succeeds only if memory
   lasts for what the command needs, and if every spill file can be created exactly then.
   */
  method Mcmd(ms: seq<Member>, files: seq<string>, at: Position, f: Layout,
              pressure: nat -> nat, creatable: nat -> bool)
    returns (ok: bool, archive: Option<seq<int>>)
    requires Proper(f) && Fits(Sorted(ms, Routes(Names(ms), multiset(files), at), |ms|))
    ensures files == [] ==> ok && archive == None
    ensures files != [] && ok ==>
              archive == Outcome(ms, Routes(Names(ms), multiset(files), at), f)
    ensures files != [] ==>
              var needs := Needs(ms, Routes(Names(ms), multiset(files), at), SplitAt(Names(ms), at));
              (ok ==> Lasts(pressure, needs)) && (!ok ==> Wanting(pressure, creatable, needs))
  {
    if files == [] {
      return true, None;
    }
    ghost var job := Job(Names(ms), multiset(files), at);
    FiledMembers(ms, RoutesOf(job), |ms|);
    FiledSound(ms, RoutesOf(job), |ms|);
    archive := None;
    var ar;
    ok, ar := Gather(ms, Given(files), at, pressure, creatable, job);
    NeedsMet(ar, ms, job, ok);
    if ok {
      archive := ar.Install(f);
    }
  }

  /** The first `i` members have been given what they take, or memory ran out on the way. */
  ghost predicate Underway(was: seq<Event>, now: seq<Event>, ms: seq<Member>, job: Job, i: nat, ok: bool) {
    && |ms| == |job.names| && i <= |ms|
    && var goes, split := RoutesOf(job), SplitAt(job.names, job.at);
       (ok && Went(was, now, TurnsNeed(ms, goes, split, i), true))
       || (!ok && Went(was, now, TurnsNeed(ms, goes, split, |ms|), false))
  }

  lemma UnderwayNext(was: seq<Event>, mid: seq<Event>, now: seq<Event>, ms: seq<Member>, job: Job, i: nat, ok: bool)
    requires Underway(was, mid, ms, job, i, true) && i < |ms|
    requires Went(mid, now, TurnNeeds(Filed(ms, RoutesOf(job), i), RoutesOf(job)[i], ms[i],
                                      SplitAt(job.names, job.at) == i), ok)
    ensures Underway(was, now, ms, job, i + 1, ok)
  {
    TurnsWent(was, mid, now, ms, RoutesOf(job), SplitAt(job.names, job.at), i, i + 1, ok);
  }

  /** Memory lasted for the whole command, or ran out on the way. */
  ghost predicate Served(ar: Ar, ms: seq<Member>, job: Job, ok: bool)
    requires |ms| == |job.names|
    reads ar, ar.astart, ar.amiddle, ar.aend
  {
    (ok && Went([], ar.events, Needs(ms, RoutesOf(job), SplitAt(job.names, job.at)), true) && ar.Steady())
    || (!ok && Went([], ar.events, Needs(ms, RoutesOf(job), SplitAt(job.names, job.at)), false) && ar.Short())
  }

  lemma NeedsMet(ar: Ar, ms: seq<Member>, job: Job, ok: bool)
    requires |ms| == |job.names| && Served(ar, ms, job, ok)
    ensures var needs := Needs(ms, RoutesOf(job), SplitAt(job.names, job.at));
            (ok ==> Lasts(ar.pressure, needs)) && (!ok ==> Wanting(ar.pressure, ar.creatable, needs))
  {
    var needs := Needs(ms, RoutesOf(job), SplitAt(job.names, job.at));
    if ok {
      assert ar.events == needs;
    } else {
      WentWanting(ar.pressure, ar.creatable, ar.events, needs);
    }
  }

  /** The three queues are set up and filled. */
  method Gather(ms: seq<Member>, given: seq<Option<string>>, at: Position, pressure: nat -> nat,
                creatable: nat -> bool, ghost job: Job)
    returns (ok: bool, ar: Ar)
    requires Posed(job, ms, given, at)
    ensures fresh(ar.astart) && fresh(ar.amiddle) && fresh(ar.aend)
    ensures ar.pressure == pressure && ar.creatable == creatable
    ensures Held(ar, ms, RoutesOf(job), |ms|, ok) && Served(ar, ms, job, ok)
  {
    ar := new Ar(pressure, creatable);
    ok := Fill(ar, ms, given, at, job);
  }

  /** Two pieces of memory for the first queues, and then the members. */
  method Fill(ar: Ar, ms: seq<Member>, given: seq<Option<string>>, at: Position, ghost job: Job) returns (ok: bool)
    requires Intact(ar) && ar.Steady() && ar.View() == EMPTY && ar.events == [] && Posed(job, ms, given, at)
    modifies ar, ar.astart, ar.amiddle, ar.aend, ar.pool
    ensures Held(ar, ms, RoutesOf(job), |ms|, ok) && Served(ar, ms, job, ok)
  {
    ok := ar.AllocTwice();
    ghost var mid := ar.events;
    if !ok {
      NeedsShort(ar.events, ms, job);
      return;
    }
    GoingStart(ar, ms, given, at, job);
    ok := Collect(ar, ms, given, at, job);
    NeedsGoing(mid, ar.events, ms, job, ok);
    if ok {
      ok := Finish(ar, ms, job);
    }
  }

  /** Memory ran out at once. */
  lemma NeedsShort(now: seq<Event>, ms: seq<Member>, job: Job)
    requires |ms| == |job.names| && Went([], now, [Allot, Allot], false)
    ensures Went([], now, Needs(ms, RoutesOf(job), SplitAt(job.names, job.at)), false)
  {
    var needs := TurnsNeed(ms, RoutesOf(job), SplitAt(job.names, job.at), |ms|);
    WentShort([], now, [Allot, Allot], needs);
    WentShort([], now, [Allot, Allot] + needs, [Allot]);
  }

  /** The members have been taken in, or memory ran out. */
  lemma NeedsGoing(mid: seq<Event>, now: seq<Event>, ms: seq<Member>, job: Job, ok: bool)
    requires Went([], mid, [Allot, Allot], true) && Underway(mid, now, ms, job, |ms|, ok)
    ensures var needs := TurnsNeed(ms, RoutesOf(job), SplitAt(job.names, job.at), |ms|);
            if ok then Went([], now, [Allot, Allot] + needs, true)
            else Went([], now, Needs(ms, RoutesOf(job), SplitAt(job.names, job.at)), false)
  {
    var needs := TurnsNeed(ms, RoutesOf(job), SplitAt(job.names, job.at), |ms|);
    WentThen([], mid, now, [Allot, Allot], needs, ok);
    if !ok {
      WentShort([], now, [Allot, Allot] + needs, [Allot]);
    }
  }

  /** The header that finds the end of the archive. */
  method Finish(ar: Ar, ms: seq<Member>, ghost job: Job) returns (ok: bool)
    requires Held(ar, ms, RoutesOf(job), |ms|, true)
    requires |ms| == |job.names|
    requires Went([], ar.events, [Allot, Allot] + TurnsNeed(ms, RoutesOf(job), SplitAt(job.names, job.at), |ms|), true)
    modifies ar`allocs, ar`spills, ar`events, ar.astart, ar.amiddle, ar.aend
    ensures Held(ar, ms, RoutesOf(job), |ms|, ok) && Served(ar, ms, job, ok)
  {
    ghost var mid := ar.events;
    ok := ar.Alloc();
    WentOne(mid, ok);
    WentThen([], mid, ar.events, [Allot, Allot] + TurnsNeed(ms, RoutesOf(job), SplitAt(job.names, job.at), |ms|),
             [Allot], ok);
  }

  /** Every member of the old archive is read and goes where it belongs. */
  method Collect(ar: Ar, ms: seq<Member>, given: seq<Option<string>>, at: Position, ghost job: Job) returns (ok: bool)
    requires Going(ar, ms, at, job, 0, given, 0, false, true)
    modifies ar, ar.astart, ar.amiddle, ar.aend, ar.pool
    ensures Held(ar, ms, RoutesOf(job), |ms|, ok)
    ensures Underway(old(ar.events), ar.events, ms, job, |ms|, ok)
  {
    ghost var was := ar.events;
    var i, state, ended, left := 0, 0, false, given;
    ok := true;
    UnderwayStart(was, ms, job);
    while i < |ms|
      invariant 0 <= i <= |ms| && Going(ar, ms, at, job, i, left, state, ended, true)
      invariant forall x :: x in ar.pool ==> x in old(ar.pool) || fresh(x)
      invariant Underway(was, ar.events, ms, job, i, true) && ok
    {
      ok, left, state, ended := Turn(ar, ms, at, i, left, state, ended, job, was);
      if !ok {
        UnderwayEnd(was, ar.events, ms, job, i + 1, ok);
        return;
      }
      i := i + 1;
    }
  }

  lemma UnderwayStart(was: seq<Event>, ms: seq<Member>, job: Job)
    requires |ms| == |job.names|
    ensures Underway(was, was, ms, job, 0, true)
  {
  }

  lemma UnderwayEnd(was: seq<Event>, now: seq<Event>, ms: seq<Member>, job: Job, i: nat, ok: bool)
    requires Underway(was, now, ms, job, i, ok) && (ok ==> i == |ms|)
    ensures Underway(was, now, ms, job, |ms|, ok)
  {
  }

  /** Before member `i`, if memory has lasted. */
  ghost predicate Going(ar: Ar, ms: seq<Member>, at: Position, job: Job, i: nat, left: seq<Option<string>>, state: nat,
                        ended: bool, ok: bool)
    reads ar, ar.astart, ar.amiddle, ar.aend, ar.astart.chain, ar.amiddle.chain, ar.aend.chain
  {
    && Watching(job, i, left, state, ended) && job.names == Names(ms) && job.at == at
    && Held(ar, ms, RoutesOf(job), i, ok)
  }

  /** The command line as the loop starts with it. */
  ghost predicate Posed(job: Job, ms: seq<Member>, given: seq<Option<string>>, at: Position) {
    Watching(job, 0, given, 0, false) && job.names == Names(ms) && job.at == at
  }

  lemma GoingStart(ar: Ar, ms: seq<Member>, given: seq<Option<string>>, at: Position, job: Job)
    requires Intact(ar) && ar.Steady() && ar.View() == EMPTY && Posed(job, ms, given, at)
    ensures Going(ar, ms, at, job, 0, given, 0, false, true)
  {
  }

  /** One member read and filed. */
  method Turn(ar: Ar, ms: seq<Member>, at: Position, i: nat, left: seq<Option<string>>, state: nat, ended: bool,
              ghost job: Job, ghost was: seq<Event>)
    returns (ok: bool, left': seq<Option<string>>, state': nat, ended': bool)
    requires i < |ms| && Going(ar, ms, at, job, i, left, state, ended, true)
    requires Underway(was, ar.events, ms, job, i, true)
    modifies ar, ar.astart, ar.amiddle, ar.aend, ar.pool
    ensures forall x :: x in ar.pool ==> x in old(ar.pool) || fresh(x)
    ensures Going(ar, ms, at, job, i + 1, left', state', ended', ok)
    ensures Underway(was, ar.events, ms, job, i + 1, ok)
  {
    ghost var mid := ar.events;
    var g;
    g, left', state', ended' := NextRoute(ms[i].name, i, at, left, state, ended, job);
    ok := Dispatch(ar, g, ms, RoutesOf(job), i, ended' && !ended);
    UnderwayNext(was, mid, ar.events, ms, job, i, ok);
  }

  /** The archive made of sorted members. */
  ghost function Outcome(ms: seq<Member>, goes: seq<Option<Where>>, f: Layout): Option<seq<int>>
    requires |ms| == |goes| && Proper(f) && Fits(Sorted(ms, goes, |ms|))
  {
    FiledMembers(ms, goes, |ms|);
    Installed(Filed(ms, goes, |ms|), f)
  }

  lemma {:induction false} FiledNext(ms: seq<Member>, goes: seq<Option<Where>>, i: nat, j: nat)
    requires j == i + 1 <= |ms| == |goes|
    ensures Filed(ms, goes, j) == Filed(ms, goes, i).TakenIn(goes[i], ms[i])
  {
    assert j - 1 == i;
  }

  /** The member goes to its queue, if it goes anywhere. */
  method Dispatch(ar: Ar, g: Option<Where>, ms: seq<Member>, ghost goes: seq<Option<Where>>, i: nat, split: bool)
    returns (ok: bool)
    requires i < |ms| == |goes| && g == goes[i] && Held(ar, ms, goes, i, true)
    modifies ar, ar.astart, ar.amiddle, ar.aend, ar.pool
    ensures (forall x :: x in ar.pool ==> x in old(ar.pool) || fresh(x)) && Held(ar, ms, goes, i + 1, ok)
    ensures Went(old(ar.events), ar.events, TurnNeeds(Filed(ms, goes, i), g, ms[i], split), ok)
  {
    FiledSound(ms, goes, i);
    FiledNext(ms, goes, i, i + 1);
    ok := ar.TakeIn(g, ms[i], split);
  }
}
