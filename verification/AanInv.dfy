/** The invariant of the two endpoints of `aan`, and that every step keeps it. */
module AanInv {
  import opened AanModel
  import opened AanStream

  function Concat(parts: seq<Bytes>): Bytes {
    if parts == [] then [] else Concat(parts[..|parts| - 1]) + parts[|parts| - 1]
  }

  /** Messages that have left `unsent` for good. */
  function Sent(x: Endpoint): nat {
    |x.acks|
  }

  /** Buffers that the ack loop has taken off `unacked` so far this time round. */
  function InAck(net: NetPc): nat {
    match net
    case NetAck(_, i) => i
    case NetHold(_, i) => i + 1
    case _ => 0
  }

  /** The number of the first message still in `unacked`. */
  function Base(x: Endpoint): nat {
    x.lastacked + InAck(x.net)
  }

  /** The number of the first message still in `unsent`. */
  function Pending(x: Endpoint): nat {
    Sent(x) + if x.main.MainHold? then 1 else 0
  }

  /** Buffers in some loop's hand. */
  function InHand(x: Endpoint): nat {
    (if x.client.ClientHold? then 1 else 0) + (if x.main.MainHold? then 1 else 0) + (if x.net.NetHold? then 1 else 0)
  }

  // ---- one endpoint on its own ----

  /** `unsent` holds exactly the messages read but not yet sent, in order. */
  ghost predicate UnsentOk(x: Endpoint) {
    && Pending(x) + |x.unsent| == |x.log|
    && (forall j :: 0 <= j < |x.unsent| ==>
          x.unsent[j].msg == Pending(x) + j && x.unsent[j].data == x.log[Pending(x) + j])
    && (x.main.MainHold? ==> x.main.b.msg == Sent(x) && x.main.b.data == x.log[Sent(x)])
  }

  /** `unacked` holds exactly the messages from `lastacked` up to the number sent, as first stamped. */
  ghost predicate UnackedOk(x: Endpoint) {
    && Sent(x) <= |x.log|
    && Base(x) + |x.unacked| == Sent(x)
    && forall j :: 0 <= j < |x.unacked| ==> x.unacked[j] == Message(x.log, x.acks, Base(x) + j)
  }

  /** The message being written is the last one stamped. */
  ghost predicate WritingOk(x: Endpoint) {
    (x.main.MainHeader? || x.main.MainBody?) ==>
      0 < Sent(x) <= |x.log| && x.main.b == Message(x.log, x.acks, Sent(x) - 1)
  }

  /** Acks carried never fall, and never promise more than was received. */
  ghost predicate AcksOk(x: Endpoint) {
    && (forall m, n :: 0 <= m <= n < |x.acks| ==> x.acks[m] <= x.acks[n])
    && (forall n :: 0 <= n < |x.acks| ==> x.acks[n] <= x.inmsg)
  }

  /** The NBUF buffers are all accounted for. */
  ghost predicate BuffersOk(x: Endpoint) {
    x.empty + |x.unsent| + |x.unacked| + InHand(x) == NBUF
  }

  /** Only the last message read can be the empty one that means end of file. */
  ghost predicate EofOk(x: Endpoint) {
    forall n :: 0 <= n < |x.log| && x.log[n] == [] ==> n == |x.log| - 1 && x.client.ClientDone?
  }

  ghost predicate Local(x: Endpoint) {
    && UnsentOk(x) && UnackedOk(x) && WritingOk(x) && AcksOk(x) && BuffersOk(x) && EofOk(x)
    && (x.netfd.Fd? ==> x.netfd.conn in x.used)
    && (x.main.MainSync? && x.netfd.Fd? ==> x.failed)
    && !x.net.NetAssert?
  }

  // ---- one direction: sender, receiver, wires ----

  /** How a wire that the sender is writing to must stop, given where its loop is. */
  function Expected(x: Endpoint): End
  {
    match x.main
    case MainHeader(b) => Full(if Sent(x) > 0 then Sent(x) - 1 else 0)
    case MainBody(b) => if b.data == [] || Sent(x) == 0 then Full(Sent(x)) else Partial(Sent(x) - 1)
    case _ => Full(Sent(x))
  }

  /** A wire that carries a gapless stream starting no later than the receiver's `inmsg`. */
  ghost predicate WireOk(x: Endpoint, inmsg: nat, c: nat, w: Wire) {
    && (c !in x.used ==> w.items == [])
    && exists k: nat, e: End {:trigger Stream(w.items, k, x.log, x.acks, e)} ::
         && k <= inmsg && Stream(w.items, k, x.log, x.acks, e)
         && (x.netfd == Fd(c) && !w.cut ==> if x.main.MainSync? then w.items == [] else e == Expected(x))
  }

  /** Whole messages handed to the client so far. */
  function Handed(y: Endpoint): int {
    y.inmsg - if y.net.NetDeliver? then 1 else 0
  }

  /** The receiver has accepted exactly the first `inmsg` messages, in order. */
  ghost predicate ReceiverOk(x: Endpoint, y: Endpoint) {
    && y.inmsg <= Sent(x) <= |x.log|
    && (forall n :: 0 <= n < y.inmsg ==> x.log[n] != [])
    && y.lastacked == (if y.inmsg == 0 then 0 else x.acks[y.inmsg - 1])
    && (y.net.NetAck? || y.net.NetHold? ==>
          y.inmsg < Sent(x) && y.net.f == Message(x.log, x.acks, y.inmsg) && y.net.f.data != [] &&
          Base(y) <= y.net.f.acked)
    && (y.net.NetDeliver? ==> y.inmsg > 0 && y.net.f == Message(x.log, x.acks, y.inmsg - 1))
    && (y.net.NetClosed? ==> y.inmsg == |x.log| - 1 && x.log[y.inmsg] == [])
    && 0 <= Handed(y) && y.delivered == Concat(x.log[..Handed(y)])
  }

  /** Every wire starts no later than this: past the frame being processed, if there is one. */
  function Reached(y: Endpoint): nat {
    y.inmsg + if y.net.NetAck? || y.net.NetHold? || y.net.NetClosed? then 1 else 0
  }

  ghost predicate Link(x: Endpoint, y: Endpoint, w: Wires) {
    && ReceiverOk(x, y)
    && forall c: nat {:trigger Get(w, c)} :: WireOk(x, Reached(y), c, Get(w, c))
  }

  ghost predicate Inv(s: State) {
    Local(s.a) && Local(s.b) && Link(s.a, s.b, s.ab) && Link(s.b, s.a, s.ba)
  }

  lemma FreshLink()
    ensures Link(FRESH, FRESH, map[])
  {
    forall c: nat ensures WireOk(FRESH, 0, c, Get(map[], c)) {
      assert Stream(Get(map[], c).items, 0, FRESH.log, FRESH.acks, Full(0));
    }
    assert FRESH.log[..0] == [];
  }

  lemma FreshLocal()
    ensures Local(FRESH)
  {
  }

  lemma InitInv(s: State)
    requires Init(s)
    ensures Inv(s)
  {
    FreshLocal();
    FreshLink();
  }

  /** An endpoint's own first unacknowledged message is one the peer has reached. */
  lemma BaseReached(x: Endpoint, y: Endpoint)
    requires Local(x) && ReceiverOk(x, y)
    ensures Base(y) <= x.inmsg
  {
  }

  // ---- framing: what each half of an invariant depends on ----

  /** Nothing that the sending half looks at has changed. */
  ghost predicate SameSender(x: Endpoint, x': Endpoint) {
    x'.log == x.log && x'.acks == x.acks && x'.main == x.main && x'.netfd == x.netfd && x'.used == x.used
  }

  /** Nothing that the receiving half looks at has changed. */
  ghost predicate SameReceiver(y: Endpoint, y': Endpoint) {
    y'.inmsg == y.inmsg && y'.lastacked == y.lastacked && y'.net == y.net && y'.delivered == y.delivered
  }

  lemma SenderFrame(x: Endpoint, x': Endpoint, y: Endpoint, w: Wires)
    requires Link(x, y, w) && SameSender(x, x')
    ensures Link(x', y, w)
  {
    forall c: nat ensures WireOk(x', Reached(y), c, Get(w, c)) {
      assert WireOk(x, Reached(y), c, Get(w, c));
    }
  }

  lemma ReceiverFrame(x: Endpoint, y: Endpoint, y': Endpoint, w: Wires)
    requires Link(x, y, w) && SameReceiver(y, y')
    ensures Link(x, y', w)
  {
    forall c: nat ensures WireOk(x, Reached(y'), c, Get(w, c)) {
      assert WireOk(x, Reached(y), c, Get(w, c));
    }
  }

  /** A longer log, and a main loop no longer writing to this wire, keep the wire as it is. */
  lemma WireExtend(x: Endpoint, x': Endpoint, inmsg: nat, c: nat, w: Wire)
    requires WireOk(x, inmsg, c, w)
    requires x.log <= x'.log && x.acks <= x'.acks && |x'.acks| <= |x'.log| && x.used <= x'.used
    requires x'.netfd == Fd(c) && !w.cut ==>
               && x.netfd == Fd(c) && !x.main.MainSync? && !x'.main.MainSync? && Expected(x') == Expected(x)
    ensures WireOk(x', inmsg, c, w)
  {
    var k: nat, e: End :| k <= inmsg && Stream(w.items, k, x.log, x.acks, e)
         && (x.netfd == Fd(c) && !w.cut ==> if x.main.MainSync? then w.items == [] else e == Expected(x));
    StreamExtend(w.items, k, x.log, x.acks, e, x'.log, x'.acks);
  }

  // ---- steps of fromclient ----

  lemma ClientTakeLocal(x: Endpoint, x': Endpoint)
    requires Local(x) && ClientTake(x, x')
    ensures Local(x')
  {
  }

  lemma ClientReadLocal(x: Endpoint, x': Endpoint, data: Bytes)
    requires Local(x) && ClientRead(x, x', data)
    ensures Local(x')
  {
  }

  lemma ClientReadLink(x: Endpoint, x': Endpoint, y: Endpoint, w: Wires, data: Bytes)
    requires Local(x) && Link(x, y, w) && ClientRead(x, x', data)
    ensures Link(x', y, w)
  {
    forall c: nat ensures WireOk(x', Reached(y), c, Get(w, c)) {
      var v := Get(w, c);
      var k: nat, e: End :| k <= Reached(y) && Stream(v.items, k, x.log, x.acks, e)
         && (x.netfd == Fd(c) && !v.cut ==> if x.main.MainSync? then v.items == [] else e == Expected(x));
      StreamExtend(v.items, k, x.log, x.acks, e, x'.log, x'.acks);
    }
    assert x'.log[..Handed(y)] == x.log[..Handed(y)];
  }

  // ---- steps of the main loop ----

  lemma MainTakeLocal(x: Endpoint, x': Endpoint)
    requires Local(x) && MainTake(x, x')
    ensures Local(x')
  {
    assert x.unsent[0].msg == Pending(x) + 0;
  }

  lemma MainTakeLink(x: Endpoint, x': Endpoint, y: Endpoint, w: Wires)
    requires Local(x) && Link(x, y, w) && MainTake(x, x')
    ensures Link(x', y, w)
  {
    forall c: nat ensures WireOk(x', Reached(y), c, Get(w, c)) {
      WireExtend(x, x', Reached(y), c, Get(w, c));
    }
  }

  lemma MainStampLocal(x: Endpoint, x': Endpoint)
    requires Local(x) && MainStamp(x, x')
    ensures Local(x')
  {
  }

  lemma MainStampLink(x: Endpoint, x': Endpoint, y: Endpoint, w: Wires)
    requires Local(x) && Link(x, y, w) && MainStamp(x, x')
    ensures Link(x', y, w)
  {
    forall c: nat ensures WireOk(x', Reached(y), c, Get(w, c)) {
      WireExtend(x, x', Reached(y), c, Get(w, c));
    }
  }

  lemma MainReconnectLocal(x: Endpoint, x': Endpoint, c: nat)
    requires Local(x) && MainReconnect(x, x', c)
    ensures Local(x')
  {
  }

  lemma MainReconnectLink(x: Endpoint, x': Endpoint, y: Endpoint, w: Wires, d: nat)
    requires Local(x) && Link(x, y, w) && MainReconnect(x, x', d)
    ensures Link(x', y, w)
  {
    forall c: nat ensures WireOk(x', Reached(y), c, Get(w, c)) {
      assert WireOk(x, Reached(y), c, Get(w, c));
    }
  }

  /** The wire that the main loop is writing to, if there is one. */
  ghost predicate Live(x: Endpoint, w: Wires) {
    x.netfd.Fd? && !Get(w, x.netfd.conn).cut
  }

  function LiveItems(x: Endpoint, w: Wires): seq<Chunk>
    requires x.netfd.Fd?
  {
    Get(w, x.netfd.conn).items
  }

  /** Where the stream on the live wire starts. */
  lemma LiveStream(x: Endpoint, y: Endpoint, w: Wires) returns (k: nat)
    requires Link(x, y, w)
    ensures Live(x, w) && !x.main.MainSync? ==>
              k <= Reached(y) && Stream(LiveItems(x, w), k, x.log, x.acks, Expected(x))
    ensures Live(x, w) && x.main.MainSync? ==> LiveItems(x, w) == []
  {
    k := 0;
    if Live(x, w) {
      var c := x.netfd.conn;
      var v := Get(w, c);
      assert WireOk(x, Reached(y), c, v);
      var e: End;
      k, e :| k <= Reached(y) && Stream(v.items, k, x.log, x.acks, e)
         && (x.netfd == Fd(c) && !v.cut ==> if x.main.MainSync? then v.items == [] else e == Expected(x));
    }
  }

  /** A write that leaves the live wire as expected leaves every wire in order. */
  lemma WriteLink(x: Endpoint, x': Endpoint, y: Endpoint, w: Wires, w': Wires, items: seq<Chunk>, k: nat)
    requires Local(x) && Link(x, y, w) && w' == Write(x.netfd, w, items)
    requires x'.log == x.log && x'.acks == x.acks && x'.netfd == x.netfd && x'.used == x.used
    requires !x'.main.MainSync?
    requires Live(x, w) ==> k <= Reached(y) && Stream(LiveItems(x, w) + items, k, x.log, x.acks, Expected(x'))
    ensures Link(x', y, w')
  {
    forall c: nat ensures WireOk(x', Reached(y), c, Get(w', c)) {
      assert WireOk(x, Reached(y), c, Get(w, c));
      if Live(x, w) && x.netfd == Fd(c) {
        assert Get(w', c) == Wire(LiveItems(x, w) + items, false);
      } else {
        assert Get(w', c) == Get(w, c);
      }
    }
  }

  lemma MainWriteHeaderLink(x: Endpoint, x': Endpoint, y: Endpoint, w: Wires, w': Wires, fails: bool)
    requires Local(x) && Link(x, y, w) && MainWriteHeader(x, w, x', w', fails)
    ensures Link(x', y, w')
  {
    var n, more := Sent(x) - 1, [HeaderOf(x.main.b)];
    StreamHeader(x.log, x.acks, n);
    var k := LiveStream(x, y, w);
    if Live(x, w) {
      StreamAppend(LiveItems(x, w), k, x.log, x.acks, n, more, Expected(x'));
    }
    WriteLink(x, x', y, w, w', more, k);
  }

  lemma MainWriteBodyLink(x: Endpoint, x': Endpoint, y: Endpoint, w: Wires, w': Wires, fails: bool)
    requires Local(x) && Link(x, y, w) && MainWriteBody(x, w, x', w', fails)
    ensures Link(x', y, w')
  {
    var n, b := Sent(x) - 1, x.main.b;
    var k := LiveStream(x, y, w);
    if Live(x, w) {
      if b.data == [] {
        assert LiveItems(x, w) + BodyOf(b) == LiveItems(x, w);
      } else {
        StreamBody(LiveItems(x, w), k, x.log, x.acks, n);
      }
    }
    WriteLink(x, x', y, w, w', BodyOf(b), k);
  }

  lemma MainIdleLink(x: Endpoint, x': Endpoint, y: Endpoint, w: Wires, w': Wires, fails: bool)
    requires Local(x) && Link(x, y, w) && MainIdle(x, w, x', w', fails)
    ensures Link(x', y, w')
  {
    var idle := [Header(0, -1, x.inmsg)];
    StreamIdle(x.log, x.acks, Sent(x), x.inmsg);
    var k := LiveStream(x, y, w);
    if Live(x, w) {
      StreamAppend(LiveItems(x, w), k, x.log, x.acks, Sent(x), idle, Expected(x'));
    }
    WriteLink(x, x', y, w, w', idle, k);
  }

  /** Retransmission starts no later than the peer's `inmsg`, since that is what it acknowledged. */
  lemma MainSynchronizeLink(x: Endpoint, x': Endpoint, y: Endpoint, w: Wires, w': Wires)
    requires Local(x) && Link(x, y, w) && Base(x) <= Reached(y) && MainSynchronize(x, w, x', w')
    ensures Link(x', y, w')
  {
    var frames := Frames(x.unacked);
    StreamFrames(x.unacked, Base(x), x.log, x.acks);
    var k := LiveStream(x, y, w);
    if Live(x, w) {
      assert LiveItems(x, w) + frames == frames;
    }
    WriteLink(x, x', y, w, w', frames, Base(x));
  }

  lemma SendLink(x: Endpoint, x': Endpoint, y: Endpoint, w: Wires, w': Wires)
    requires Local(x) && Link(x, y, w) && Base(x) <= Reached(y) && SendStep(x, w, x', w')
    ensures Link(x', y, w')
  {
    if fails :| MainWriteHeader(x, w, x', w', fails) {
      MainWriteHeaderLink(x, x', y, w, w', fails);
    } else if fails :| MainWriteBody(x, w, x', w', fails) {
      MainWriteBodyLink(x, x', y, w, w', fails);
    } else if fails :| MainIdle(x, w, x', w', fails) {
      MainIdleLink(x, x', y, w, w', fails);
    } else {
      MainSynchronizeLink(x, x', y, w, w');
    }
  }

  /** Only the place in the main loop and the flags differ. */
  lemma LocalFrame(x: Endpoint, x': Endpoint)
    requires Local(x) && x' == x.(main := x'.main, failed := x'.failed, done := x'.done, alive := x'.alive)
    requires !x.main.MainHold? && !x'.main.MainHold? && WritingOk(x') && !x'.main.MainSync?
    ensures Local(x') && SameReceiver(x, x')
  {
    assert Pending(x') == Pending(x) && Base(x') == Base(x);
  }

  lemma MainWriteHeaderLocal(x: Endpoint, x': Endpoint, w: Wires, w': Wires, fails: bool)
    requires Local(x) && MainWriteHeader(x, w, x', w', fails)
    ensures Local(x') && SameReceiver(x, x')
  {
    LocalFrame(x, x');
  }

  lemma MainWriteBodyLocal(x: Endpoint, x': Endpoint, w: Wires, w': Wires, fails: bool)
    requires Local(x) && MainWriteBody(x, w, x', w', fails)
    ensures Local(x') && SameReceiver(x, x')
  {
    LocalFrame(x, x');
  }

  lemma MainIdleLocal(x: Endpoint, x': Endpoint, w: Wires, w': Wires, fails: bool)
    requires Local(x) && MainIdle(x, w, x', w', fails)
    ensures Local(x') && SameReceiver(x, x')
  {
    LocalFrame(x, x');
  }

  lemma MainSynchronizeLocal(x: Endpoint, x': Endpoint, w: Wires, w': Wires)
    requires Local(x) && MainSynchronize(x, w, x', w')
    ensures Local(x') && SameReceiver(x, x')
  {
    LocalFrame(x, x');
  }

  lemma SendLocal(x: Endpoint, x': Endpoint, w: Wires, w': Wires)
    requires Local(x) && SendStep(x, w, x', w')
    ensures Local(x') && SameReceiver(x, x')
  {
    if fails :| MainWriteHeader(x, w, x', w', fails) {
      MainWriteHeaderLocal(x, x', w, w', fails);
    } else if fails :| MainWriteBody(x, w, x', w', fails) {
      MainWriteBodyLocal(x, x', w, w', fails);
    } else if fails :| MainIdle(x, w, x', w', fails) {
      MainIdleLocal(x, x', w, w', fails);
    } else {
      MainSynchronizeLocal(x, x', w, w');
    }
  }

  // ---- steps of fromnet ----

  /** The next message comes off the wire: what the reader may conclude. */
  lemma FrontFrame(x: Endpoint, y: Endpoint, w: Wires, c: nat) returns (k: nat, e: End)
    requires Local(x) && Link(x, y, w) && Get(w, c).items != []
    ensures var v := Get(w, c);
            && k <= Reached(y) && Stream(v.items, k, x.log, x.acks, e)
            && (x.netfd == Fd(c) && !v.cut ==> if x.main.MainSync? then v.items == [] else e == Expected(x))
  {
    assert WireOk(x, Reached(y), c, Get(w, c));
    k, e :| k <= Reached(y) && Stream(Get(w, c).items, k, x.log, x.acks, e)
         && (x.netfd == Fd(c) && !Get(w, c).cut ==>
               if x.main.MainSync? then Get(w, c).items == [] else e == Expected(x));
  }

  /** Taking chunks off the front of one wire leaves every wire in order. */
  lemma ConsumeLink(x: Endpoint, y: Endpoint, y': Endpoint, w: Wires, w': Wires, c: nat, n: nat, k: nat, e: End)
    requires Link(x, y, w) && n <= |Get(w, c).items|
    requires w' == w[c := Get(w, c).(items := Get(w, c).items[n..])]
    requires Reached(y) <= Reached(y') && ReceiverOk(x, y')
    requires k <= Reached(y') && Stream(Get(w', c).items, k, x.log, x.acks, e)
    requires x.netfd == Fd(c) && !Get(w, c).cut ==> !x.main.MainSync? && e == Expected(x)
    ensures Link(x, y', w')
  {
    forall d: nat ensures WireOk(x, Reached(y'), d, Get(w', d)) {
      assert WireOk(x, Reached(y), d, Get(w, d));
    }
  }

  lemma NetIdleLink(x: Endpoint, y: Endpoint, y': Endpoint, w: Wires, w': Wires)
    requires Local(x) && Link(x, y, w) && NetIdle(y, w, y', w')
    ensures Link(x, y', w')
  {
    var c := y.netfd.conn;
    var k, e := FrontFrame(x, y, w, c);
    ConsumeLink(x, y, y', w, w', c, 1, k, e);
  }

  /** The close frame arrives only after every message before it was accepted. */
  lemma NetEofLink(x: Endpoint, y: Endpoint, y': Endpoint, w: Wires, w': Wires)
    requires Local(x) && Link(x, y, w) && NetEof(y, w, y', w')
    ensures Link(x, y', w')
  {
    var c := y.netfd.conn;
    var k, e := FrontFrame(x, y, w, c);
    assert x.log[k] == [];
    assert k == y.inmsg == |x.log| - 1;
    ConsumeLink(x, y, y', w, w', c, 1, k + 1, e);
  }

  /** A complete frame is either one already accepted or exactly the next one. */
  lemma NetFrameLink(x: Endpoint, y: Endpoint, y': Endpoint, w: Wires, w': Wires)
    requires Local(x) && Link(x, y, w) && NetFrame(y, w, y', w')
    ensures Link(x, y', w')
  {
    var c := y.netfd.conn;
    var items := Get(w, c).items;
    var k, e := FrontFrame(x, y, w, c);
    assert items[0].msg == k && items[1].data == x.log[k];
    if k == y.inmsg {
      assert y'.net.f == Message(x.log, x.acks, k);
    }
    ConsumeLink(x, y, y', w, w', c, 2, k + 1, e);
  }

  lemma ReceiveLink(x: Endpoint, y: Endpoint, y': Endpoint, w: Wires, w': Wires)
    requires Local(x) && Link(x, y, w) && ReceiveStep(y, w, y', w')
    ensures Link(x, y', w')
  {
    if NetIdle(y, w, y', w') {
      NetIdleLink(x, y, y', w, w');
    } else if NetEof(y, w, y', w') {
      NetEofLink(x, y, y', w, w');
    } else {
      NetFrameLink(x, y, y', w, w');
    }
  }

  lemma NetEofLocal(y: Endpoint, y': Endpoint, w: Wires, w': Wires)
    requires Local(y) && NetEof(y, w, y', w')
    ensures Local(y') && SameSender(y, y')
  {
    assert Base(y') == Base(y) && Pending(y') == Pending(y);
  }

  lemma NetFrameLocal(y: Endpoint, y': Endpoint, w: Wires, w': Wires)
    requires Local(y) && NetFrame(y, w, y', w')
    ensures Local(y') && SameSender(y, y')
  {
    assert Base(y') == Base(y) && Pending(y') == Pending(y);
  }

  lemma ReceiveLocal(y: Endpoint, y': Endpoint, w: Wires, w': Wires)
    requires Local(y) && ReceiveStep(y, w, y', w')
    ensures Local(y') && SameSender(y, y')
  {
    if NetEof(y, w, y', w') {
      NetEofLocal(y, y', w, w');
    } else if NetFrame(y, w, y', w') {
      NetFrameLocal(y, y', w, w');
    }
  }

  lemma NetDropBoth(x: Endpoint, x': Endpoint, y: Endpoint, w: Wires)
    requires Local(x) && Link(x, y, w) && NetDrop(x, x')
    ensures Local(x') && Link(x', y, w)
  {
    forall c: nat ensures WireOk(x', Reached(y), c, Get(w, c)) {
      assert WireOk(x, Reached(y), c, Get(w, c));
    }
  }

  /**
   A turn of the ack loop.  The buffer it takes is numbered as it expects, so the
   assertion in the source cannot fail, and there is always a buffer to take.
   */
  lemma NetAckTakeBoth(x: Endpoint, y: Endpoint, y': Endpoint, w: Wires)
    requires Local(y) && Link(x, y, w) && NetAckTake(y, y')
    ensures Local(y') && SameSender(y, y') && Link(x, y', w)
  {
    assert y.unacked[0] == Message(y.log, y.acks, Base(y) + 0);
    assert Base(y') == Base(y) + 1;
    forall j | 0 <= j < |y'.unacked|
      ensures y'.unacked[j] == Message(y'.log, y'.acks, Base(y') + j)
    {
      assert y'.unacked[j] == y.unacked[j + 1];
    }
    forall c: nat ensures WireOk(x, Reached(y'), c, Get(w, c)) {
      assert WireOk(x, Reached(y), c, Get(w, c));
    }
  }

  lemma NetAckReturnBoth(x: Endpoint, y: Endpoint, y': Endpoint, w: Wires)
    requires Local(y) && Link(x, y, w) && NetAckReturn(y, y')
    ensures Local(y') && SameSender(y, y') && Link(x, y', w)
  {
    assert Base(y') == Base(y);
    forall c: nat ensures WireOk(x, Reached(y'), c, Get(w, c)) {
      assert WireOk(x, Reached(y), c, Get(w, c));
    }
  }

  lemma NetAckDoneBoth(x: Endpoint, y: Endpoint, y': Endpoint, w: Wires)
    requires Local(y) && Link(x, y, w) && NetAckDone(y, y')
    ensures Local(y') && SameSender(y, y') && Link(x, y', w)
  {
    assert Base(y') == Base(y);
    forall c: nat ensures WireOk(x, Reached(y'), c, Get(w, c)) {
      assert WireOk(x, Reached(y), c, Get(w, c));
    }
  }

  lemma NetWriteBoth(x: Endpoint, y: Endpoint, y': Endpoint, w: Wires)
    requires Local(y) && Link(x, y, w) && NetWrite(y, y')
    ensures Local(y') && SameSender(y, y') && Link(x, y', w)
  {
    assert Base(y') == Base(y);
    var n := Handed(y);
    assert x.log[..n + 1][..n] == x.log[..n] && x.log[..n + 1][n] == x.log[n];
    forall c: nat ensures WireOk(x, Reached(y'), c, Get(w, c)) {
      assert WireOk(x, Reached(y), c, Get(w, c));
    }
  }

  lemma NetStopBoth(x: Endpoint, y: Endpoint, y': Endpoint, w: Wires)
    requires Local(y) && Link(x, y, w) && NetStop(y, y')
    ensures Local(y') && SameSender(y, y') && Link(x, y', w)
  {
    assert Base(y') == Base(y);
    forall c: nat ensures WireOk(x, Reached(y'), c, Get(w, c)) {
      assert WireOk(x, Reached(y), c, Get(w, c));
    }
  }

  // ---- all steps together ----

  /** A step of `x` that touches no wire keeps both directions. */
  lemma QuietInv(x: Endpoint, x': Endpoint, y: Endpoint, o: Wires, i: Wires)
    requires Local(x) && Local(y) && Link(x, y, o) && Link(y, x, i) && QuietStep(x, x')
    ensures Local(x') && Link(x', y, o) && Link(y, x', i)
  {
    if ClientTake(x, x') {
      ClientTakeLocal(x, x');
      SenderFrame(x, x', y, o);
      ReceiverFrame(y, x, x', i);
    } else if data :| ClientRead(x, x', data) {
      ClientReadLocal(x, x', data);
      ClientReadLink(x, x', y, o, data);
      ReceiverFrame(y, x, x', i);
    } else if MainTake(x, x') {
      MainTakeLocal(x, x');
      MainTakeLink(x, x', y, o);
      ReceiverFrame(y, x, x', i);
    } else if MainStamp(x, x') {
      MainStampLocal(x, x');
      MainStampLink(x, x', y, o);
      ReceiverFrame(y, x, x', i);
    } else if c :| MainReconnect(x, x', c) {
      MainReconnectLocal(x, x', c);
      MainReconnectLink(x, x', y, o, c);
      ReceiverFrame(y, x, x', i);
    } else if NetDrop(x, x') {
      NetDropBoth(x, x', y, o);
      ReceiverFrame(y, x, x', i);
    } else {
      QuietNetInv(x, x', y, o, i);
    }
  }

  lemma QuietNetInv(x: Endpoint, x': Endpoint, y: Endpoint, o: Wires, i: Wires)
    requires Local(x) && Local(y) && Link(x, y, o) && Link(y, x, i)
    requires NetAckTake(x, x') || NetAckReturn(x, x') || NetAckDone(x, x') || NetWrite(x, x') || NetStop(x, x')
             || Exit(x, x')
    ensures Local(x') && Link(x', y, o) && Link(y, x', i)
  {
    if NetAckTake(x, x') {
      NetAckTakeBoth(y, x, x', i);
    } else if NetAckReturn(x, x') {
      NetAckReturnBoth(y, x, x', i);
    } else if NetAckDone(x, x') {
      NetAckDoneBoth(y, x, x', i);
    } else if NetWrite(x, x') {
      NetWriteBoth(y, x, x', i);
    } else if NetStop(x, x') {
      NetStopBoth(y, x, x', i);
    } else {
      ExitBoth(y, x, x', i);
    }
    SenderFrame(x, x', y, o);
  }

  lemma ExitBoth(x: Endpoint, y: Endpoint, y': Endpoint, w: Wires)
    requires Local(y) && Link(x, y, w) && Exit(y, y')
    ensures Local(y') && SameSender(y, y') && Link(x, y', w)
  {
    assert Base(y') == Base(y) && Pending(y') == Pending(y);
    ReceiverFrame(x, y, y', w);
  }

  /** Any step of `x` keeps both directions. */
  lemma EndpointInv(x: Endpoint, x': Endpoint, y: Endpoint, o: Wires, i: Wires, o': Wires, i': Wires)
    requires Local(x) && Local(y) && Link(x, y, o) && Link(y, x, i) && EndpointStep(x, o, i, x', o', i')
    ensures Local(x') && Link(x', y, o') && Link(y, x', i')
  {
    if QuietStep(x, x') && o' == o && i' == i {
      QuietInv(x, x', y, o, i);
    } else if SendStep(x, o, x', o') && i' == i {
      BaseReached(y, x);
      SendLocal(x, x', o, o');
      SendLink(x, x', y, o, o');
      ReceiverFrame(y, x, x', i);
    } else {
      ReceiveLocal(x, x', i, i');
      ReceiveLink(y, x, x', i, i');
      SenderFrame(x, x', y, o);
    }
  }

  /** Any cut of any wire keeps its direction. */
  lemma CutLink(x: Endpoint, y: Endpoint, w: Wires, w': Wires)
    requires Link(x, y, w) && CutStep(w, w')
    ensures Link(x, y, w')
  {
    var d: nat, items': seq<Chunk> :| Severed(Get(w, d).items, items') && w' == w[d := Wire(items', true)];
    forall c: nat ensures WireOk(x, Reached(y), c, Get(w', c)) {
      var v := Get(w, c);
      assert WireOk(x, Reached(y), c, v);
      if c == d {
        var k: nat, e: End :| k <= Reached(y) && Stream(v.items, k, x.log, x.acks, e);
        var e' := StreamSevered(v.items, k, x.log, x.acks, e, items');
      }
    }
  }

  lemma NextInv(s: State, s': State)
    requires Inv(s) && Next(s, s')
    ensures Inv(s')
  {
    if EndpointStep(s.a, s.ab, s.ba, s'.a, s'.ab, s'.ba) && s'.b == s.b {
      EndpointInv(s.a, s'.a, s.b, s.ab, s.ba, s'.ab, s'.ba);
    } else if EndpointStep(s.b, s.ba, s.ab, s'.b, s'.ba, s'.ab) && s'.a == s.a {
      EndpointInv(s.b, s'.b, s.a, s.ba, s.ab, s'.ba, s'.ab);
    } else if CutStep(s.ab, s'.ab) && s' == s.(ab := s'.ab) {
      CutLink(s.a, s.b, s.ab, s'.ab);
    } else {
      CutLink(s.b, s.a, s.ba, s'.ba);
    }
  }

  /** The invariant holds in every state of every run. */
  lemma {:induction false} RunInv(r: seq<State>, i: nat)
    requires Run(r) && i < |r|
    ensures Inv(r[i])
  {
    if i == 0 {
      InitInv(r[0]);
    } else {
      RunInv(r, i - 1);
      assert Next(r[i - 1], r[(i - 1) + 1]);
      NextInv(r[i - 1], r[i]);
    }
  }
}
