/**
 `aan` keeps a byte stream going between two endpoints whose network connection
 may be cut and dialled again at any moment.  Each endpoint runs three loops that
 share a few variables and three channels of buffers; here every endpoint is a
 record and every loop a program counter in it, and a run is any interleaving of
 their steps with cuts of the wires.
 */
module AanModel {

  type Bytes = seq<int>

  /** Number of buffers, and capacity of each of the three channels. */
  const NBUF := 10

  /** A buffer with its header as last stamped. */
  datatype Buf = Buf(msg: int, acked: nat, data: Bytes)

  /** What is in flight: headers are written and read whole, bodies may be torn. */
  datatype Chunk = Header(nb: nat, msg: int, acked: nat) | Body(data: Bytes)

  /** One direction of one connection.  Once cut, nothing more gets through. */
  datatype Wire = Wire(items: seq<Chunk>, cut: bool)

  /** Connections are named by numbers; one that was never used is an empty wire. */
  type Wires = map<nat, Wire>

  function Get(w: Wires, c: nat): Wire {
    if c in w then w[c] else Wire([], false)
  }

  datatype Fd = NoFd | Fd(conn: nat)

  /** `fromclient`: waiting for an empty buffer, holding one, or finished. */
  datatype ClientPc = ClientWait | ClientHold | ClientDone

  /** The loop in `threadmain`, with `synchronize` as one step. */
  datatype MainPc =
    | MainAlt
    | MainHold(b: Buf)
    | MainHeader(b: Buf)
    | MainBody(b: Buf)
    | MainSync

  /** `fromnet`: reading, in the ack loop, with a buffer in hand, delivering, or out of the loop. */
  datatype NetPc =
    | NetRead
    | NetAck(f: Buf, i: nat)
    | NetHold(f: Buf, i: nat)
    | NetDeliver(f: Buf)
    | NetClosed
    | NetDone
    | NetAssert

  datatype Endpoint = Endpoint(
    alive: bool,
    done: bool,
    failed: bool,
    netfd: Fd,
    used: set<nat>,
    // history: what the client was read as, by message number, and the ack each message first carried
    log: seq<Bytes>,
    acks: seq<nat>,
    client: ClientPc,
    empty: nat,
    unsent: seq<Buf>,
    main: MainPc,
    unacked: seq<Buf>,
    net: NetPc,
    inmsg: nat,
    lastacked: nat,
    delivered: Bytes)

  const FRESH := Endpoint(true, false, true, NoFd, {}, [], [],
                          ClientWait, NBUF, [], MainAlt, [], NetRead, 0, 0, [])

  /** `writen` on the current connection: bytes go out only if it is there and not cut. */
  function Write(netfd: Fd, w: Wires, items: seq<Chunk>): Wires {
    if netfd.Fd? && !Get(w, netfd.conn).cut
    then w[netfd.conn := Wire(Get(w, netfd.conn).items + items, false)]
    else w
  }

  /** A write must fail without a descriptor, may fail on a cut wire, and succeeds otherwise. */
  predicate WriteFails(netfd: Fd, w: Wires, fails: bool) {
    match netfd
    case NoFd => fails
    case Fd(c) => fails ==> Get(w, c).cut
  }

  function HeaderOf(b: Buf): Chunk {
    Header(|b.data|, b.msg, b.acked)
  }

  /** A zero-length body writes nothing. */
  function BodyOf(b: Buf): seq<Chunk> {
    if b.data == [] then [] else [Body(b.data)]
  }

  function Frames(bs: seq<Buf>): seq<Chunk> {
    if bs == [] then [] else [HeaderOf(bs[0])] + BodyOf(bs[0]) + Frames(bs[1..])
  }

  // ---- steps of one endpoint ----

  /** `b = recvp(empty)` */
  predicate ClientTake(x: Endpoint, x': Endpoint) {
    x.client.ClientWait? && x.empty > 0 &&
    x' == x.(client := ClientHold, empty := x.empty - 1)
  }

  /** Read from the client (an empty read is end of file), number it, and queue it. */
  predicate ClientRead(x: Endpoint, x': Endpoint, data: Bytes) {
    x.client.ClientHold? &&
    x' == x.(client := if data == [] then ClientDone else ClientWait,
             unsent := x.unsent + [Buf(|x.log|, 0, data)],
             log := x.log + [data])
  }

  /** The alt picks a buffer off `unsent`. */
  predicate MainTake(x: Endpoint, x': Endpoint) {
    x.main.MainAlt? && !x.failed && x.unsent != [] &&
    x' == x.(main := MainHold(x.unsent[0]), unsent := x.unsent[1..])
  }

  /** `sendp(unacked, b)` and `b->hdr.acked = inmsg` */
  predicate MainStamp(x: Endpoint, x': Endpoint) {
    x.main.MainHold? &&
    var b := x.main.b.(acked := x.inmsg);
    x' == x.(main := MainHeader(b), unacked := x.unacked + [b], acks := x.acks + [x.inmsg])
  }

  predicate MainWriteHeader(x: Endpoint, w: Wires, x': Endpoint, w': Wires, fails: bool) {
    x.main.MainHeader? && WriteFails(x.netfd, w, fails) &&
    w' == Write(x.netfd, w, [HeaderOf(x.main.b)]) &&
    x' == x.(main := MainBody(x.main.b), failed := x.failed || fails)
  }

  /** Write the body; after the end-of-file message the loop is done. */
  predicate MainWriteBody(x: Endpoint, w: Wires, x': Endpoint, w': Wires, fails: bool) {
    x.main.MainBody? &&
    (x.main.b.data == [] ==> !fails) && (x.main.b.data != [] ==> WriteFails(x.netfd, w, fails)) &&
    w' == Write(x.netfd, w, BodyOf(x.main.b)) &&
    x' == x.(main := MainAlt, failed := x.failed || fails, done := x.done || x.main.b.data == [])
  }

  /** The idle frame of the timer: no data, message -1. */
  predicate MainIdle(x: Endpoint, w: Wires, x': Endpoint, w': Wires, fails: bool) {
    x.main.MainAlt? && !x.failed && WriteFails(x.netfd, w, fails) &&
    w' == Write(x.netfd, w, [Header(0, -1, x.inmsg)]) &&
    x' == x.(failed := x.failed || fails)
  }

  /** After a failure, once the reader has dropped the descriptor: a connection not used before. */
  predicate MainReconnect(x: Endpoint, x': Endpoint, c: nat) {
    x.main.MainAlt? && x.failed && x.netfd.NoFd? && c !in x.used &&
    x' == x.(netfd := Fd(c), used := x.used + {c}, main := MainSync)
  }

  /** `synchronize`: everything unacknowledged goes out again, as it was stamped. */
  predicate MainSynchronize(x: Endpoint, w: Wires, x': Endpoint, w': Wires) {
    x.main.MainSync? &&
    w' == Write(x.netfd, w, Frames(x.unacked)) &&
    x' == x.(main := MainAlt, failed := false)
  }

  /** An idle frame is read and its ack ignored. */
  predicate NetIdle(x: Endpoint, w: Wires, x': Endpoint, w': Wires) {
    x.net.NetRead? && x.netfd.Fd? &&
    var items := Get(w, x.netfd.conn).items;
    items != [] && items[0].Header? && items[0].nb == 0 && items[0].msg < 0 &&
    w' == w[x.netfd.conn := Get(w, x.netfd.conn).(items := items[1..])] &&
    x' == x
  }

  /** A zero-length frame with a message number ends the session. */
  predicate NetEof(x: Endpoint, w: Wires, x': Endpoint, w': Wires) {
    x.net.NetRead? && x.netfd.Fd? &&
    var items := Get(w, x.netfd.conn).items;
    items != [] && items[0].Header? && items[0].nb == 0 && items[0].msg >= 0 &&
    w' == w[x.netfd.conn := Get(w, x.netfd.conn).(items := items[1..])] &&
    x' == x.(net := NetClosed, done := true)
  }

  /** A header with a complete body behind it is at the front of the wire. */
  predicate FrameReady(items: seq<Chunk>) {
    |items| >= 2 && items[0].Header? && items[0].nb > 0 &&
    items[1].Body? && |items[1].data| == items[0].nb
  }

  /** A complete frame: skipped if its number is already behind `inmsg`, else accepted. */
  predicate NetFrame(x: Endpoint, w: Wires, x': Endpoint, w': Wires) {
    x.net.NetRead? && x.netfd.Fd? &&
    var items := Get(w, x.netfd.conn).items;
    FrameReady(items) &&
    w' == w[x.netfd.conn := Get(w, x.netfd.conn).(items := items[2..])] &&
    x' == if 0 <= items[0].msg < x.inmsg then x
          else x.(net := NetAck(Buf(items[0].msg, items[0].acked, items[1].data), 0))
  }

  /** Read error, end of the wire or a torn body: the descriptor is dropped. */
  predicate NetDrop(x: Endpoint, x': Endpoint) {
    x.net.NetRead? && x.netfd.Fd? && x' == x.(netfd := NoFd)
  }

  /** One turn of the ack loop: take a buffer off `unacked` and check its number. */
  predicate NetAckTake(x: Endpoint, x': Endpoint) {
    x.net.NetAck? && x.net.i != x.net.f.acked - x.lastacked && x.unacked != [] &&
    x' == x.(unacked := x.unacked[1..],
             net := if x.unacked[0].msg == x.lastacked + x.net.i then NetHold(x.net.f, x.net.i) else NetAssert)
  }

  /** `sendp(empty, rb)` */
  predicate NetAckReturn(x: Endpoint, x': Endpoint) {
    x.net.NetHold? && x' == x.(empty := x.empty + 1, net := NetAck(x.net.f, x.net.i + 1))
  }

  /** The ack loop is over: `lastacked` moves up and the message is counted. */
  predicate NetAckDone(x: Endpoint, x': Endpoint) {
    x.net.NetAck? && x.net.i == x.net.f.acked - x.lastacked &&
    x' == x.(lastacked := x.net.f.acked, inmsg := x.inmsg + 1, net := NetDeliver(x.net.f))
  }

  /** `writen(1, b->buf, len)` */
  predicate NetWrite(x: Endpoint, x': Endpoint) {
    x.net.NetDeliver? && x' == x.(delivered := x.delivered + x.net.f.data, net := NetRead)
  }

  /** The loop test sees that the other loop is done. */
  predicate NetStop(x: Endpoint, x': Endpoint) {
    x.net.NetRead? && x.done && x' == x.(net := NetDone)
  }

  /** The process exits: on purpose when done, or from outside at any time. */
  predicate Exit(x: Endpoint, x': Endpoint) {
    x' == x.(alive := false)
  }

  /** Steps that touch no wire. */
  ghost predicate QuietStep(x: Endpoint, x': Endpoint) {
    || ClientTake(x, x') || (exists data :: ClientRead(x, x', data))
    || MainTake(x, x') || MainStamp(x, x') || (exists c :: MainReconnect(x, x', c))
    || NetDrop(x, x') || NetAckTake(x, x') || NetAckReturn(x, x') || NetAckDone(x, x')
    || NetWrite(x, x') || NetStop(x, x') || Exit(x, x')
  }

  /** Steps that write to the outgoing wires. */
  ghost predicate SendStep(x: Endpoint, w: Wires, x': Endpoint, w': Wires) {
    || (exists fails :: MainWriteHeader(x, w, x', w', fails))
    || (exists fails :: MainWriteBody(x, w, x', w', fails))
    || (exists fails :: MainIdle(x, w, x', w', fails))
    || MainSynchronize(x, w, x', w')
  }

  /** Steps that read from the incoming wires. */
  ghost predicate ReceiveStep(x: Endpoint, w: Wires, x': Endpoint, w': Wires) {
    NetIdle(x, w, x', w') || NetEof(x, w, x', w') || NetFrame(x, w, x', w')
  }

  ghost predicate EndpointStep(x: Endpoint, o: Wires, i: Wires, x': Endpoint, o': Wires, i': Wires) {
    && x.alive
    && (|| (QuietStep(x, x') && o' == o && i' == i)
        || (SendStep(x, o, x', o') && i' == i)
        || (ReceiveStep(x, i, x', i') && o' == o))
  }

  /** The first `j` chunks and then only the first `t` bytes of a body. */
  function Torn(items: seq<Chunk>, j: nat, t: nat): seq<Chunk>
    requires j < |items| && items[j].Body? && t <= |items[j].data|
  {
    items[..j] + [Body(items[j].data[..t])]
  }

  /** What a cut leaves of what was in flight: a prefix, whose last body may be torn. */
  ghost predicate Severed(items: seq<Chunk>, items': seq<Chunk>) {
    || (exists j: nat {:trigger items[..j]} :: j <= |items| && items' == items[..j])
    || (exists j: nat, t: nat {:trigger Torn(items, j, t)} ::
          j < |items| && items[j].Body? && t < |items[j].data| && items' == Torn(items, j, t))
  }

  ghost predicate CutStep(w: Wires, w': Wires) {
    exists c: nat {:trigger Get(w, c)} :: exists items': seq<Chunk> {:trigger Wire(items', true)} ::
      Severed(Get(w, c).items, items') && w' == w[c := Wire(items', true)]
  }

  // ---- the two endpoints together ----

  datatype State = State(a: Endpoint, b: Endpoint, ab: Wires, ba: Wires)

  ghost predicate Init(s: State) {
    s == State(FRESH, FRESH, map[], map[])
  }

  ghost predicate Next(s: State, s': State) {
    || (EndpointStep(s.a, s.ab, s.ba, s'.a, s'.ab, s'.ba) && s'.b == s.b)
    || (EndpointStep(s.b, s.ba, s.ab, s'.b, s'.ba, s'.ab) && s'.a == s.a)
    || (CutStep(s.ab, s'.ab) && s' == s.(ab := s'.ab))
    || (CutStep(s.ba, s'.ba) && s' == s.(ba := s'.ba))
  }

  /** A run from the start: any finite sequence of steps. */
  ghost predicate Run(r: seq<State>) {
    |r| > 0 && Init(r[0]) && forall i :: 0 <= i < |r| - 1 ==> Next(r[i], r[i + 1])
  }
}
