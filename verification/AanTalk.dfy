/**
 `aan` does not run dry: however many messages the two sides have for each other, there
 is a run in which all of them are delivered, although there are only `NBUF` buffers.
 Acks come back on the other side's messages, so each side has to talk.
 */
module AanTalk {
  import opened AanModel
  import opened AanInv
  import opened AanSafety

  /** A connected endpoint between messages. */
  ghost predicate Quiet(x: Endpoint) {
    && x.alive && !x.done && !x.failed && x.netfd == Fd(0)
    && x.client.ClientWait? && x.main.MainAlt? && x.net.NetRead? && x.unsent == []
  }

  /** The endpoint after one message of its client has gone out. */
  function Spoken(x: Endpoint, data: Bytes): Endpoint
    requires x.empty > 0
  {
    x.(log := x.log + [data], acks := x.acks + [x.inmsg], empty := x.empty - 1,
       unacked := x.unacked + [Buf(|x.log|, x.inmsg, data)])
  }

  /** The message on the wire. */
  function Frame(x: Endpoint, data: Bytes): Wire {
    Wire([Header(|data|, |x.log|, x.inmsg), Body(data)], false)
  }

  /** The endpoint after it has accepted and delivered a message. */
  function Heard(y: Endpoint, f: Buf): Endpoint
    requires y.lastacked <= f.acked <= y.lastacked + |y.unacked|
  {
    var n := f.acked - y.lastacked;
    y.(unacked := y.unacked[n..], empty := y.empty + n, lastacked := f.acked, inmsg := y.inmsg + 1,
       delivered := y.delivered + f.data)
  }

  /** The left endpoint reads a message and queues it for the main loop. */
  lemma Queue(r: seq<State>, data: Bytes) returns (r': seq<State>)
    requires Run(r) && Quiet(r[|r| - 1].a) && r[|r| - 1].a.empty > 0 && data != []
    ensures Run(r')
    ensures var s, x := r[|r| - 1], r[|r| - 1].a; var b := Buf(|x.log|, 0, data);
            r'[|r'| - 1] == s.(a := x.(empty := x.empty - 1, log := x.log + [data], main := MainHold(b)))
  {
    var x := r[|r| - 1].a;
    var x1 := x.(client := ClientHold, empty := x.empty - 1);
    assert ClientTake(x, x1);
    r' := QuietA(r, x1);
    var b := Buf(|x.log|, 0, data);
    var x2 := x1.(client := ClientWait, unsent := [] + [b], log := x.log + [data]);
    assert ClientRead(x1, x2, data);
    r' := QuietA(r', x2);
    var x3 := x2.(main := MainHold(b), unsent := []);
    assert x2.unsent[1..] == [];
    assert MainTake(x2, x3);
    r' := QuietA(r', x3);
  }

  /** And sends it. */
  lemma Speak(r: seq<State>, data: Bytes) returns (r': seq<State>)
    requires Run(r) && Quiet(r[|r| - 1].a) && r[|r| - 1].a.empty > 0 && data != []
    requires Get(r[|r| - 1].ab, 0) == Wire([], false)
    ensures Run(r')
    ensures var s := r[|r| - 1];
            r'[|r'| - 1] == s.(a := Spoken(s.a, data), ab := s.ab[0 := Frame(s.a, data)])
  {
    var s, x := r[|r| - 1], r[|r| - 1].a;
    r' := Queue(r, data);
    var x3 := r'[|r'| - 1].a;
    var b := Buf(|x.log|, x.inmsg, data);
    var x4 := x3.(main := MainHeader(b), unacked := x.unacked + [b], acks := x.acks + [x.inmsg]);
    assert MainStamp(x3, x4);
    r' := QuietA(r', x4);
    var x5 := x4.(main := MainBody(b));
    assert [] + [HeaderOf(b)] == [HeaderOf(b)];
    var w1 := s.ab[0 := Wire([HeaderOf(b)], false)];
    assert MainWriteHeader(x4, s.ab, x5, w1, false);
    r' := SendA(r', x5, w1);
    var x6 := x5.(main := MainAlt);
    assert [HeaderOf(b)] + [Body(data)] == [HeaderOf(b), Body(data)];
    var w2 := s.ab[0 := Frame(x, data)];
    assert w2 == Write(Fd(0), w1, BodyOf(b));
    assert MainWriteBody(x5, w1, x6, w2, false);
    r' := SendA(r', x6, w2);
    assert x6 == Spoken(x, data);
  }

  /** The right endpoint in the ack loop, with `i` buffers returned. */
  function Acking(y: Endpoint, f: Buf, i: nat): Endpoint
    requires i <= |y.unacked|
  {
    y.(net := NetAck(f, i), unacked := y.unacked[i..], empty := y.empty + i)
  }

  /** The turns of the ack loop. */
  lemma {:induction false} AckTurns(r: seq<State>, y: Endpoint, f: Buf, i: nat) returns (r': seq<State>)
    requires Run(r) && y.alive && y.lastacked <= f.acked <= y.lastacked + |y.unacked| && i <= f.acked - y.lastacked
    requires r[|r| - 1].b == Acking(y, f, i)
    requires forall j :: 0 <= j < f.acked - y.lastacked ==> y.unacked[j].msg == y.lastacked + j
    ensures Run(r') && r'[|r'| - 1] == r[|r| - 1].(b := Acking(y, f, f.acked - y.lastacked))
    decreases f.acked - y.lastacked - i
  {
    r' := r;
    if i < f.acked - y.lastacked {
      var y1 := y.(net := NetHold(f, i), unacked := y.unacked[i + 1..], empty := y.empty + i);
      assert y.unacked[i..][1..] == y.unacked[i + 1..] && y.unacked[i..][0] == y.unacked[i];
      assert NetAckTake(Acking(y, f, i), y1);
      r' := QuietB(r, y1);
      assert NetAckReturn(y1, Acking(y, f, i + 1));
      r' := QuietB(r', Acking(y, f, i + 1));
      r' := AckTurns(r', y, f, i + 1);
    }
  }

  /** The right endpoint accepts the next message off the wire, takes its ack, and delivers it. */
  lemma Hear(r: seq<State>, y: Endpoint, w: Wires, f: Buf) returns (r': seq<State>)
    requires Run(r) && y == r[|r| - 1].b && w == r[|r| - 1].ab && Quiet(y) && f.data != [] && f.msg == y.inmsg
    requires Get(w, 0) == Wire([Header(|f.data|, f.msg, f.acked), Body(f.data)], false)
    requires y.lastacked <= f.acked <= y.lastacked + |y.unacked|
    requires forall j :: 0 <= j < f.acked - y.lastacked ==> y.unacked[j].msg == y.lastacked + j
    ensures Run(r')
    ensures r'[|r'| - 1] == r[|r| - 1].(b := Heard(y, f), ab := w[0 := Wire([], false)])
  {
    var y1, w1 := Acking(y, f, 0), w[0 := Wire([], false)];
    assert y.unacked[0..] == y.unacked;
    assert Get(w, 0).items[2..] == [];
    assert NetFrame(y, w, y1, w1);
    Extend(r, r[|r| - 1].(b := y1, ab := w1));
    r' := r + [r[|r| - 1].(b := y1, ab := w1)];
    r' := AckTurns(r', y, f, 0);
    var y2 := Acking(y, f, f.acked - y.lastacked);
    var y3 := y2.(lastacked := f.acked, inmsg := y.inmsg + 1, net := NetDeliver(f));
    assert NetAckDone(y2, y3);
    r' := QuietB(r', y3);
    assert NetWrite(y3, Heard(y, f));
    r' := QuietB(r', Heard(y, f));
  }

  // ---- the same for the other direction ----

  function Turned(s: State): State {
    State(s.b, s.a, s.ba, s.ab)
  }

  function TurnedRun(r: seq<State>): (t: seq<State>)
    ensures |t| == |r| && forall i :: 0 <= i < |r| ==> t[i] == Turned(r[i])
  {
    seq(|r|, i requires 0 <= i < |r| => Turned(r[i]))
  }

  lemma TurnedNext(s: State, s': State)
    requires Next(s, s')
    ensures Next(Turned(s), Turned(s'))
  {
  }

  /** The two sides are alike. */
  lemma Turn(r: seq<State>)
    requires Run(r)
    ensures Run(TurnedRun(r))
  {
    var t := TurnedRun(r);
    forall i | 0 <= i < |t| - 1 ensures Next(t[i], t[i + 1]) {
      assert Next(r[i], r[i + 1]);
      TurnedNext(r[i], r[i + 1]);
    }
  }

  /** One message from left to right. */
  lemma Pass(r: seq<State>, s: State, data: Bytes) returns (r': seq<State>)
    requires Run(r) && s == r[|r| - 1] && Quiet(s.a) && Quiet(s.b) && s.a.empty > 0 && data != []
    requires Get(s.ab, 0) == Wire([], false) && s.b.inmsg == |s.a.log|
    requires s.b.lastacked <= s.a.inmsg <= s.b.lastacked + |s.b.unacked|
    requires forall j :: 0 <= j < s.a.inmsg - s.b.lastacked ==> s.b.unacked[j].msg == s.b.lastacked + j
    ensures Run(r')
    ensures r'[|r'| - 1] == State(Spoken(s.a, data), Heard(s.b, Buf(|s.a.log|, s.a.inmsg, data)),
                                  s.ab[0 := Wire([], false)], s.ba)
  {
    r' := Speak(r, data);
    var w := s.ab[0 := Frame(s.a, data)];
    r' := Hear(r', s.b, w, Buf(|s.a.log|, s.a.inmsg, data));
    assert w[0 := Wire([], false)] == s.ab[0 := Wire([], false)];
  }

  /** One message from right to left. */
  lemma PassBack(r: seq<State>, s: State, data: Bytes) returns (r': seq<State>)
    requires Run(r) && s == r[|r| - 1] && Quiet(s.a) && Quiet(s.b) && s.b.empty > 0 && data != []
    requires Get(s.ba, 0) == Wire([], false) && s.a.inmsg == |s.b.log|
    requires s.a.lastacked <= s.b.inmsg <= s.a.lastacked + |s.a.unacked|
    requires forall j :: 0 <= j < s.b.inmsg - s.a.lastacked ==> s.a.unacked[j].msg == s.a.lastacked + j
    ensures Run(r')
    ensures r'[|r'| - 1] == State(Heard(s.a, Buf(|s.b.log|, s.b.inmsg, data)), Spoken(s.b, data),
                                  s.ab, s.ba[0 := Wire([], false)])
  {
    Turn(r);
    var t := Pass(TurnedRun(r), Turned(s), data);
    Turn(t);
    r' := TurnedRun(t);
  }

  // ---- any number of messages ----

  /** One side's messages have all been delivered to the other, `unacked` of them not yet known to be. */
  ghost predicate Caught(x: Endpoint, said: seq<Bytes>, heard: seq<Bytes>, unacked: seq<Buf>) {
    && Quiet(x) && x.log == said && x.inmsg == |heard| && x.delivered == Concat(heard)
    && x.unacked == unacked && x.empty == NBUF - |unacked| && x.lastacked == |said| - |unacked|
  }

  /** The right side's last message, which the left side has had no message to acknowledge on. */
  function Pended(ys: seq<Bytes>): seq<Buf> {
    if ys == [] then [] else [Buf(|ys| - 1, |ys|, ys[|ys| - 1])]
  }

  /** After as many messages in each direction, the left side always first. */
  ghost predicate Steady(s: State, xs: seq<Bytes>, ys: seq<Bytes>) {
    && |xs| == |ys| && Caught(s.a, xs, ys, []) && Caught(s.b, ys, xs, Pended(ys))
    && Get(s.ab, 0) == Wire([], false) && Get(s.ba, 0) == Wire([], false)
  }

  lemma ConcatSnoc(parts: seq<Bytes>, part: Bytes)
    ensures Concat(parts + [part]) == Concat(parts) + part
  {
    assert (parts + [part])[..|parts|] == parts;
  }

  /** Speaking leaves one message to be acknowledged. */
  lemma Speaks(x: Endpoint, said: seq<Bytes>, heard: seq<Bytes>, data: Bytes, unacked: seq<Buf>)
    requires Caught(x, said, heard, []) && unacked == [Buf(|said|, |heard|, data)]
    ensures Caught(Spoken(x, data), said + [data], heard, unacked)
  {
  }

  /** Hearing an ack for all that was said leaves nothing. */
  lemma Hears(y: Endpoint, said: seq<Bytes>, heard: seq<Bytes>, unacked: seq<Buf>, f: Buf)
    requires Caught(y, said, heard, unacked) && |unacked| <= 1 && |unacked| <= |said| == f.acked
    requires forall j :: 0 <= j < |unacked| ==> unacked[j].msg == |said| - 1
    ensures y.lastacked <= f.acked <= y.lastacked + |y.unacked|
    ensures forall j :: 0 <= j < f.acked - y.lastacked ==> y.unacked[j].msg == y.lastacked + j
    ensures Caught(Heard(y, f), said, heard + [f.data], [])
  {
    ConcatSnoc(heard, f.data);
  }

  /** One message more in each direction. */
  lemma Exchange(r: seq<State>, xs: seq<Bytes>, ys: seq<Bytes>, da: Bytes, db: Bytes) returns (r': seq<State>)
    requires Run(r) && Steady(r[|r| - 1], xs, ys) && da != [] && db != []
    ensures Run(r') && Steady(r'[|r'| - 1], xs + [da], ys + [db])
  {
    var s, k := r[|r| - 1], |xs|;
    Hears(s.b, ys, xs, Pended(ys), Buf(k, k, da));
    Speaks(s.a, xs, ys, da, [Buf(k, k, da)]);
    r' := Pass(r, s, da);
    r' := Answer(r', r'[|r'| - 1], xs + [da], ys, db, [Buf(k, k, da)]);
  }

  /** The right side's half of it. */
  lemma Answer(r: seq<State>, s: State, xs: seq<Bytes>, ys: seq<Bytes>, db: Bytes, unacked: seq<Buf>)
      returns (r': seq<State>)
    requires Run(r) && s == r[|r| - 1] && db != [] && |xs| == |ys| + 1
    requires Caught(s.a, xs, ys, unacked) && Caught(s.b, ys, xs, [])
    requires |unacked| == 1 && unacked[0].msg == |ys|
    requires Get(s.ab, 0) == Wire([], false) && Get(s.ba, 0) == Wire([], false)
    ensures Run(r') && Steady(r'[|r'| - 1], xs, ys + [db])
  {
    var k := |ys|;
    Hears(s.a, xs, ys, unacked, Buf(k, k + 1, db));
    Speaks(s.b, ys, xs, db, [Buf(k, k + 1, db)]);
    r' := PassBack(r, s, db);
  }

  /** Both sides dial the same connection. */
  lemma Connect() returns (r: seq<State>)
    ensures Run(r) && Steady(r[|r| - 1], [], [])
  {
    var s := State(FRESH, FRESH, map[], map[]);
    r := [s];
    r := Dial(r);
    Turn(r);
    r := TurnedRun(r);
    r := Dial(r);
    Turn(r);
    r := TurnedRun(r);
  }

  lemma Dial(r: seq<State>) returns (r': seq<State>)
    requires Run(r) && r[|r| - 1].a == FRESH && r[|r| - 1].ab == map[]
    ensures Run(r') && Caught(r'[|r'| - 1].a, [], [], [])
    ensures r'[|r'| - 1] == r[|r| - 1].(a := r'[|r'| - 1].a, ab := map[0 := Wire([], false)])
  {
    var x1 := FRESH.(netfd := Fd(0), used := {} + {0}, main := MainSync);
    assert MainReconnect(FRESH, x1, 0);
    r' := QuietA(r, x1);
    var x2 := x1.(main := MainAlt, failed := false);
    var none: seq<Chunk> := [];
    assert Frames([]) == none && none + none == none;
    assert MainSynchronize(x1, map[], x2, map[0 := Wire([], false)]);
    r' := SendA(r', x2, map[0 := Wire([], false)]);
  }

  /**
   For any two lists of messages of the same length, however long, there is a run in
   which each side reads all of its own and delivers all of the other's.
   */
  lemma {:induction false} Conversation(xs: seq<Bytes>, ys: seq<Bytes>) returns (r: seq<State>)
    requires |xs| == |ys| && forall k :: 0 <= k < |xs| ==> xs[k] != [] && ys[k] != []
    ensures Run(r) && Steady(r[|r| - 1], xs, ys)
    ensures r[|r| - 1].a.log == xs && r[|r| - 1].b.delivered == Concat(xs)
    ensures r[|r| - 1].b.log == ys && r[|r| - 1].a.delivered == Concat(ys)
  {
    if xs == [] {
      r := Connect();
    } else {
      var n := |xs| - 1;
      r := Conversation(xs[..n], ys[..n]);
      r := Exchange(r, xs[..n], ys[..n], xs[n], ys[n]);
      assert xs == xs[..n] + [xs[n]] && ys == ys[..n] + [ys[n]];
    }
  }

  /** No side reads more than `NBUF` messages beyond those it knows to have arrived. */
  lemma NeverFarAhead(r: seq<State>, i: nat)
    requires Run(r) && i < |r|
    ensures |r[i].a.log| <= Base(r[i].a) + NBUF && |r[i].b.log| <= Base(r[i].b) + NBUF
  {
    RunInv(r, i);
  }

  /** And if the other side says nothing, that is all it ever reads. */
  lemma OneSided(r: seq<State>, i: nat)
    requires Run(r) && i < |r|
    ensures r[i].b.log == [] ==> |r[i].a.log| <= NBUF
    ensures r[i].a.log == [] ==> |r[i].b.log| <= NBUF
  {
    RunInv(r, i);
  }

  /** Only the left side talks, and all it said has arrived. */
  ghost predicate Monologue(s: State, xs: seq<Bytes>) {
    && Quiet(s.a) && Quiet(s.b) && Get(s.ab, 0) == Wire([], false)
    && s.a.log == xs && s.a.inmsg == 0 && s.a.empty == NBUF - |xs|
    && s.b.log == [] && s.b.inmsg == |xs| && s.b.lastacked == 0 && s.b.delivered == Concat(xs)
  }

  /** That bound is reached: `NBUF` messages go out and arrive without an answer. */
  lemma {:induction false} Unanswered(xs: seq<Bytes>) returns (r: seq<State>)
    requires |xs| <= NBUF && forall k :: 0 <= k < |xs| ==> xs[k] != []
    ensures Run(r) && Monologue(r[|r| - 1], xs)
  {
    if xs == [] {
      r := Connect();
    } else {
      var n := |xs| - 1;
      r := Unanswered(xs[..n]);
      r := Pass(r, r[|r| - 1], xs[n]);
      ConcatSnoc(xs[..n], xs[n]);
      assert xs == xs[..n] + [xs[n]];
    }
  }
}
