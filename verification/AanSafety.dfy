/** What the invariant of `aan` means for its users, over every run. */
module AanSafety {
  import opened AanModel
  import opened AanStream
  import opened AanInv

  lemma {:induction false} ConcatSplit(parts: seq<Bytes>, n: nat)
    requires n <= |parts|
    ensures Concat(parts) == Concat(parts[..n]) + Concat(parts[n..])
    decreases |parts|
  {
    if n == |parts| {
      assert parts[..n] == parts && parts[n..] == [];
    } else {
      var m := |parts| - 1;
      ConcatSplit(parts[..m], n);
      assert parts[..m][..n] == parts[..n];
      assert parts[n..][..m - n] == parts[..m][n..];
      assert parts[n..][m - n] == parts[m];
    }
  }

  /** Everything an endpoint has read from its client so far. */
  function ReadSoFar(x: Endpoint): Bytes {
    Concat(x.log)
  }

  /** One direction: what came out is a prefix of what went in. */
  ghost predicate InOrder(x: Endpoint, y: Endpoint) {
    y.delivered <= ReadSoFar(x)
  }

  lemma LinkInOrder(x: Endpoint, y: Endpoint, w: Wires)
    requires Link(x, y, w)
    ensures InOrder(x, y)
    ensures y.net.NetClosed? ==> y.delivered == ReadSoFar(x)
  {
    var n := Handed(y);
    ConcatSplit(x.log, n);
    if y.net.NetClosed? {
      assert x.log[n..] == [[]];
      assert Concat([[]]) == Concat([[]][..0]) + [];
    }
  }

  /**
   Safety of the session: in every state of every run, whatever was cut, lost,
   retransmitted or redialled, the bytes each side has delivered are a prefix of
   the bytes the other side has read, and once a side has seen the close frame they
   are all of them.
   */
  lemma DeliveryIsPrefix(r: seq<State>, i: nat)
    requires Run(r) && i < |r|
    ensures InOrder(r[i].a, r[i].b) && InOrder(r[i].b, r[i].a)
    ensures r[i].b.net.NetClosed? ==> r[i].b.delivered == ReadSoFar(r[i].a)
    ensures r[i].a.net.NetClosed? ==> r[i].a.delivered == ReadSoFar(r[i].b)
  {
    RunInv(r, i);
    LinkInOrder(r[i].a, r[i].b, r[i].ab);
    LinkInOrder(r[i].b, r[i].a, r[i].ba);
  }

  /** The ack loop is safe: its assertion holds, its count is reachable, and it never waits. */
  ghost predicate AckLoopSafe(y: Endpoint) {
    && !y.net.NetAssert?
    && (y.net.NetAck? ==>
          && y.net.f.msg == y.inmsg
          && y.lastacked <= y.net.f.acked
          && y.net.i <= y.net.f.acked - y.lastacked
          && (y.net.i != y.net.f.acked - y.lastacked ==>
                y.unacked != [] && y.unacked[0].msg == y.lastacked + y.net.i))
  }

  lemma LinkAckLoop(x: Endpoint, y: Endpoint, w: Wires, v: Wires)
    requires Local(x) && Local(y) && Link(x, y, w) && Link(y, x, v)
    ensures AckLoopSafe(y)
  {
    if y.net.NetAck? {
      assert x.acks[y.inmsg] <= x.inmsg <= Sent(y);
      if y.net.i != y.net.f.acked - y.lastacked {
        assert Base(y) < Sent(y);
        assert y.unacked[0] == Message(y.log, y.acks, Base(y) + 0);
      }
    }
  }

  /** In every run: acks of accepted frames never fall, and `assert(0)` is unreachable. */
  lemma AckLoopAlwaysSafe(r: seq<State>, i: nat)
    requires Run(r) && i < |r|
    ensures AckLoopSafe(r[i].a) && AckLoopSafe(r[i].b)
  {
    RunInv(r, i);
    var s := r[i];
    LinkAckLoop(s.a, s.b, s.ab, s.ba);
    LinkAckLoop(s.b, s.a, s.ba, s.ab);
  }

  /**
   `unacked` is exactly the messages from the first unacknowledged one up to the
   last one sent, each with the number, ack and data it was first sent with.
   */
  ghost predicate UnackedExact(x: Endpoint) {
    && Base(x) <= Sent(x) <= |x.log|
    && x.unacked == seq(Sent(x) - Base(x), j requires 0 <= j < Sent(x) - Base(x) =>
                          Message(x.log, x.acks, Base(x) + j))
  }

  /** No channel send finds its channel full, and all NBUF buffers stay in circulation. */
  ghost predicate BuffersConserved(x: Endpoint) {
    && x.empty + |x.unsent| + |x.unacked| + InHand(x) == NBUF
    && (x.client.ClientHold? ==> |x.unsent| < NBUF)
    && (x.main.MainHold? ==> |x.unacked| < NBUF)
    && (x.net.NetHold? ==> x.empty < NBUF)
  }

  lemma LocalBuffers(x: Endpoint)
    requires Local(x)
    ensures UnackedExact(x) && BuffersConserved(x)
  {
  }

  lemma BuffersAlwaysConserved(r: seq<State>, i: nat)
    requires Run(r) && i < |r|
    ensures UnackedExact(r[i].a) && UnackedExact(r[i].b)
    ensures BuffersConserved(r[i].a) && BuffersConserved(r[i].b)
  {
    RunInv(r, i);
    LocalBuffers(r[i].a);
    LocalBuffers(r[i].b);
  }

  /** Progress of one endpoint is never undone. */
  ghost predicate Grows(x: Endpoint, x': Endpoint) {
    && x.log <= x'.log && x.acks <= x'.acks && x.delivered <= x'.delivered
    && x.inmsg <= x'.inmsg && x.lastacked <= x'.lastacked
  }

  lemma GrowsTransitive(x: Endpoint, y: Endpoint, z: Endpoint)
    requires Grows(x, y) && Grows(y, z)
    ensures Grows(x, z)
  {
  }

  lemma QuietNetGrows(x: Endpoint, x': Endpoint)
    requires AckLoopSafe(x)
    requires NetAckTake(x, x') || NetAckReturn(x, x') || NetAckDone(x, x') || NetWrite(x, x') || NetStop(x, x')
    ensures Grows(x, x')
  {
  }

  lemma QuietGrows(x: Endpoint, x': Endpoint)
    requires QuietStep(x, x') && AckLoopSafe(x)
    ensures Grows(x, x')
  {
    if NetAckTake(x, x') || NetAckReturn(x, x') || NetAckDone(x, x') || NetWrite(x, x') || NetStop(x, x') {
      QuietNetGrows(x, x');
    }
  }

  lemma SendGrows(x: Endpoint, x': Endpoint, w: Wires, w': Wires)
    requires SendStep(x, w, x', w')
    ensures Grows(x, x')
  {
  }

  lemma EndpointGrows(x: Endpoint, x': Endpoint, o: Wires, i: Wires, o': Wires, i': Wires)
    requires AckLoopSafe(x) && EndpointStep(x, o, i, x', o', i')
    ensures Grows(x, x')
  {
    if QuietStep(x, x') {
      QuietGrows(x, x');
    } else if SendStep(x, o, x', o') {
      SendGrows(x, x', o, o');
    }
  }

  lemma NextGrows(s: State, s': State)
    requires AckLoopSafe(s.a) && AckLoopSafe(s.b) && Next(s, s')
    ensures Grows(s.a, s'.a) && Grows(s.b, s'.b)
  {
    if EndpointStep(s.a, s.ab, s.ba, s'.a, s'.ab, s'.ba) && s'.b == s.b {
      EndpointGrows(s.a, s'.a, s.ab, s.ba, s'.ab, s'.ba);
    } else if EndpointStep(s.b, s.ba, s.ab, s'.b, s'.ba, s'.ab) && s'.a == s.a {
      EndpointGrows(s.b, s'.b, s.ba, s.ab, s'.ba, s'.ab);
    }
  }

  lemma StepGrows(r: seq<State>, i: nat)
    requires Run(r) && i + 1 < |r|
    ensures Grows(r[i].a, r[i + 1].a) && Grows(r[i].b, r[i + 1].b)
  {
    AckLoopAlwaysSafe(r, i);
    NextGrows(r[i], r[i + 1]);
  }

  /** Two states in a row, neither endpoint losing anything. */
  ghost predicate GrowsAt(r: seq<State>, k: nat) {
    k + 1 < |r| && Grows(r[k].a, r[k + 1].a) && Grows(r[k].b, r[k + 1].b)
  }

  lemma {:induction false} GrowsChain(r: seq<State>, i: nat, j: nat)
    requires i <= j < |r| && forall k: nat :: i <= k < j ==> GrowsAt(r, k)
    ensures Grows(r[i].a, r[j].a) && Grows(r[i].b, r[j].b)
    decreases j
  {
    if i < j {
      GrowsChain(r, i, j - 1);
      assert GrowsAt(r, j - 1);
      GrowsTransitive(r[i].a, r[j - 1].a, r[j].a);
      GrowsTransitive(r[i].b, r[j - 1].b, r[j].b);
    }
  }

  /** Between any two states of a run nothing delivered, logged or acknowledged is taken back. */
  lemma RunGrows(r: seq<State>, i: nat, j: nat)
    requires Run(r) && i <= j < |r|
    ensures Grows(r[i].a, r[j].a) && Grows(r[i].b, r[j].b)
  {
    forall k: nat | i <= k < j ensures GrowsAt(r, k) {
      StepGrows(r, k);
    }
    GrowsChain(r, i, j);
  }

  // ---- a run that loses a message in flight and recovers it ----

  /** Extending a run by one step. */
  lemma Extend(r: seq<State>, s: State)
    requires Run(r) && Next(r[|r| - 1], s)
    ensures Run(r + [s]) && (r + [s])[|r|] == s
  {
    var t := r + [s];
    forall i | 0 <= i < |t| - 1 ensures Next(t[i], t[i + 1]) {
      if i < |r| - 1 {
        assert Next(r[i], r[i + 1]);
      }
    }
  }

  /** One step of the endpoint on the left, wires unchanged. */
  lemma QuietA(r: seq<State>, x: Endpoint) returns (r': seq<State>)
    requires Run(r) && r[|r| - 1].a.alive && QuietStep(r[|r| - 1].a, x)
    ensures Run(r') && r'[|r'| - 1] == r[|r| - 1].(a := x)
  {
    Extend(r, r[|r| - 1].(a := x));
    r' := r + [r[|r| - 1].(a := x)];
  }

  lemma QuietB(r: seq<State>, x: Endpoint) returns (r': seq<State>)
    requires Run(r) && r[|r| - 1].b.alive && QuietStep(r[|r| - 1].b, x)
    ensures Run(r') && r'[|r'| - 1] == r[|r| - 1].(b := x)
  {
    Extend(r, r[|r| - 1].(b := x));
    r' := r + [r[|r| - 1].(b := x)];
  }

  lemma SendA(r: seq<State>, x: Endpoint, w: Wires) returns (r': seq<State>)
    requires Run(r) && r[|r| - 1].a.alive && SendStep(r[|r| - 1].a, r[|r| - 1].ab, x, w)
    ensures Run(r') && r'[|r'| - 1] == r[|r| - 1].(a := x, ab := w)
  {
    Extend(r, r[|r| - 1].(a := x, ab := w));
    r' := r + [r[|r| - 1].(a := x, ab := w)];
  }

  /** The left endpoint reads one message, dials, and sends it. */
  lemma FirstSend(data: Bytes) returns (r: seq<State>)
    requires data != []
    ensures Run(r)
    ensures r[|r| - 1] ==
            State(SentOnce(data, 0), FRESH, map[0 := Wire([Header(|data|, 0, 0), Body(data)], false)], map[])
  {
    var x := FRESH;
    var s0 := State(FRESH, FRESH, map[], map[]);
    r := [s0];
    var x1 := x.(client := ClientHold, empty := 9);
    assert ClientTake(x, x1);
    r := QuietA(r, x1);
    var x2 := x1.(client := ClientWait, unsent := [Buf(0, 0, data)], log := [data]);
    assert ClientRead(x1, x2, data);
    r := QuietA(r, x2);
    var x3 := x2.(netfd := Fd(0), used := {0}, main := MainSync);
    assert MainReconnect(x2, x3, 0);
    r := QuietA(r, x3);
    var x4 := x3.(main := MainAlt, failed := false);
    var w1: Wires := map[0 := Wire([], false)];
    var none: seq<Chunk> := [];
    assert Frames([]) == none && none + none == none;
    assert w1 == Write(Fd(0), map[], none);
    assert MainSynchronize(x3, map[], x4, w1);
    r := SendA(r, x4, w1);
    r := SendOne(r, x4, w1, data);
  }

  /** The left endpoint after sending its one message on connection `c`. */
  function SentOnce(data: Bytes, c: nat): Endpoint {
    FRESH.(failed := false, netfd := Fd(c), used := if c == 0 then {0} else {0, c}, log := [data], acks := [0],
           empty := 9, unacked := [Buf(0, 0, data)])
  }

  lemma SendOne(r: seq<State>, x4: Endpoint, w1: Wires, data: Bytes) returns (r': seq<State>)
    requires data != [] && Run(r) && r[|r| - 1] == State(x4, FRESH, w1, map[])
    requires x4 == SentOnce(data, 0).(acks := [], unacked := [], unsent := [Buf(0, 0, data)])
    requires w1 == map[0 := Wire([], false)]
    ensures Run(r')
    ensures r'[|r'| - 1] ==
            State(SentOnce(data, 0), FRESH, map[0 := Wire([Header(|data|, 0, 0), Body(data)], false)], map[])
  {
    var b := Buf(0, 0, data);
    var x5 := x4.(main := MainHold(b), unsent := []);
    assert MainTake(x4, x5);
    r' := QuietA(r, x5);
    var x6 := x5.(main := MainHeader(b), unacked := [b], acks := [0]);
    assert MainStamp(x5, x6);
    r' := QuietA(r', x6);
    var x7 := x6.(main := MainBody(b));
    var none: seq<Chunk> := [];
    assert none + [HeaderOf(b)] == [HeaderOf(b)];
    var w2 := w1[0 := Wire([HeaderOf(b)], false)];
    assert MainWriteHeader(x6, w1, x7, w2, false);
    r' := SendA(r', x7, w2);
    var x8 := x7.(main := MainAlt);
    assert [HeaderOf(b)] + [Body(data)] == [HeaderOf(b), Body(data)];
    var w3 := w2[0 := Wire([HeaderOf(b), Body(data)], false)];
    assert w3 == Write(Fd(0), w2, [Body(data)]);
    assert MainWriteBody(x7, w2, x8, w3, false);
    r' := SendA(r', x8, w3);
    assert x8 == SentOnce(data, 0);
    assert w3 == map[0 := Wire([Header(|data|, 0, 0), Body(data)], false)];
  }

  /** The connection is cut with everything on it; both ends notice and the left one redials. */
  lemma Retransmit(r: seq<State>, data: Bytes) returns (r': seq<State>)
    requires data != [] && Run(r)
    requires r[|r| - 1] ==
             State(SentOnce(data, 0), FRESH, map[0 := Wire([Header(|data|, 0, 0), Body(data)], false)], map[])
    ensures Run(r') && r'[|r'| - 1].b == FRESH && r'[|r'| - 1].ba == map[]
    ensures Get(r'[|r'| - 1].ab, 1) == Wire([Header(|data|, 0, 0), Body(data)], false)
  {
    var x, w := SentOnce(data, 0), r[|r| - 1].ab;
    var w1 := w[0 := Wire([], true)];
    assert Get(w, 0).items[..0] == [];
    assert Severed(Get(w, 0).items, []);
    assert CutStep(w, w1);
    Extend(r, r[|r| - 1].(ab := w1));
    r' := r + [r[|r| - 1].(ab := w1)];
    // the idle frame fails on the cut wire, the reader drops the descriptor
    var x1 := x.(failed := true);
    assert MainIdle(x, w1, x1, w1, true);
    r' := SendA(r', x1, w1);
    var x2 := x1.(netfd := NoFd);
    assert NetDrop(x1, x2);
    r' := QuietA(r', x2);
    var x3 := x2.(netfd := Fd(1), used := x2.used + {1}, main := MainSync);
    assert MainReconnect(x2, x3, 1);
    r' := QuietA(r', x3);
    var x4 := x3.(main := MainAlt, failed := false);
    var b := Buf(0, 0, data);
    assert Frames([b]) == [HeaderOf(b)] + BodyOf(b) + Frames([b][1..]);
    assert Frames([b]) == [HeaderOf(b), Body(data)];
    var w2 := w1[1 := Wire([] + Frames([b]), false)];
    assert MainSynchronize(x3, w1, x4, w2);
    r' := SendA(r', x4, w2);
  }

  /**
   The protocol does recover: for every message there is a run in which it is lost
   on the first connection, sent again on the second, and delivered.
   */
  lemma RecoversLostMessage(data: Bytes) returns (r: seq<State>)
    requires data != []
    ensures Run(r) && r[|r| - 1].b.delivered == data
  {
    r := FirstSend(data);
    r := Retransmit(r, data);
    var s := r[|r| - 1];
    var y := FRESH;
    var y1 := y.(netfd := Fd(1), used := y.used + {1}, main := MainSync);
    assert MainReconnect(y, y1, 1);
    r := QuietB(r, y1);
    var y2 := y1.(net := NetAck(Buf(0, 0, data), 0));
    var w := s.ab[1 := Wire([], false)];
    assert Get(s.ab, 1).items[2..] == [];
    assert NetFrame(y1, s.ab, y2, w);
    Extend(r, r[|r| - 1].(b := y2, ab := w));
    r := r + [r[|r| - 1].(b := y2, ab := w)];
    var y3 := y2.(inmsg := 1, net := NetDeliver(Buf(0, 0, data)));
    assert NetAckDone(y2, y3);
    r := QuietB(r, y3);
    var y4 := y3.(delivered := [] + data, net := NetRead);
    assert NetWrite(y3, y4);
    r := QuietB(r, y4);
  }
}
