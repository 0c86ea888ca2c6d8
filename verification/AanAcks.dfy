/** Which ack a message carries, and when a loop may stop, over every run of `aan`. */
module AanAcks {
  import opened AanModel
  import opened AanInv
  import opened AanSafety

  /** One of the two endpoints. */
  function Side(s: State, left: bool): Endpoint {
    if left then s.a else s.b
  }

  // ---- acks ----

  /** A message that is stamped carries what has been received at that moment; the others keep theirs. */
  ghost predicate Stamps(x: Endpoint, x': Endpoint) {
    x'.acks == x.acks || (x'.acks == x.acks + [x.inmsg] && x'.inmsg == x.inmsg)
  }

  lemma EndpointStamps(x: Endpoint, x': Endpoint, o: Wires, i: Wires, o': Wires, i': Wires)
    requires EndpointStep(x, o, i, x', o', i')
    ensures Stamps(x, x')
  {
    if QuietStep(x, x') && !MainStamp(x, x') {
      assert x'.acks == x.acks;
    }
  }

  lemma StepStamps(r: seq<State>, i: nat, left: bool)
    requires Run(r) && i + 1 < |r|
    ensures Stamps(Side(r[i], left), Side(r[i + 1], left))
  {
    var s, s' := r[i], r[i + 1];
    if EndpointStep(s.a, s.ab, s.ba, s'.a, s'.ab, s'.ba) && s'.b == s.b {
      EndpointStamps(s.a, s'.a, s.ab, s.ba, s'.ab, s'.ba);
    } else if EndpointStep(s.b, s.ba, s.ab, s'.b, s'.ba, s'.ab) && s'.a == s.a {
      EndpointStamps(s.b, s'.b, s.ba, s.ab, s'.ba, s'.ab);
    }
  }

  lemma StampedAcks(x: Endpoint, x': Endpoint, n: nat)
    requires Stamps(x, x') && n < |x'.acks|
    ensures n < |x.acks| ==> x'.acks[n] == x.acks[n]
    ensures n >= |x.acks| ==> n == |x.acks| && |x'.acks| == n + 1 && x'.acks[n] == x.inmsg == x'.inmsg
  {
  }

  /** Two states in a row, seen from one side. */
  ghost predicate StampsAt(r: seq<State>, k: nat, left: bool) {
    k + 1 < |r| && Stamps(Side(r[k], left), Side(r[k + 1], left))
  }

  /** What an ack of the last state was, one step before. */
  lemma AckBefore(r: seq<State>, k: nat, j: nat, n: nat, left: bool)
    requires j == k + 1 && StampsAt(r, k, left) && n < Sent(Side(r[j], left))
    ensures var x, x' := Side(r[k], left), Side(r[j], left);
            if n < Sent(x) then x'.acks[n] == x.acks[n]
            else n == Sent(x) && Sent(x') == n + 1 && x'.acks[n] == x.inmsg == x'.inmsg
  {
    StampedAcks(Side(r[k], left), Side(r[j], left), n);
  }

  lemma ReceivedGrows(r: seq<State>, i: nat, j: nat, left: bool)
    requires Run(r) && i <= j < |r|
    ensures Side(r[i], left).inmsg <= Side(r[j], left).inmsg
  {
    RunGrows(r, i, j);
  }

  lemma NothingSent(r: seq<State>, left: bool)
    requires Run(r)
    ensures Sent(Side(r[0], left)) == 0
  {
  }

  lemma {:induction false} StampedWhen(r: seq<State>, j: nat, n: nat, left: bool) returns (i: nat)
    requires j < |r| && forall k: nat :: k < j ==> StampsAt(r, k, left)
    requires n < Sent(Side(r[j], left)) && Sent(Side(r[0], left)) == 0
    ensures i < j && Sent(Side(r[i], left)) == n && Sent(Side(r[i + 1], left)) == n + 1
    ensures Side(r[j], left).acks[n] == Side(r[i], left).inmsg == Side(r[i + 1], left).inmsg
    decreases j
  {
    var k := j - 1;
    AckBefore(r, k, j, n, left);
    if n < Sent(Side(r[k], left)) {
      i := StampedWhen(r, k, n, left);
    } else {
      i := k;
    }
  }

  /** The ack that a message carries is what had been received when it was stamped, exactly. */
  lemma AckExact(r: seq<State>, j: nat, n: nat, left: bool) returns (i: nat)
    requires Run(r) && j < |r| && n < Sent(Side(r[j], left))
    ensures i < j && Sent(Side(r[i], left)) == n && Sent(Side(r[i + 1], left)) == n + 1
    ensures Side(r[j], left).acks[n] == Side(r[i], left).inmsg == Side(r[i + 1], left).inmsg
  {
    NothingSent(r, left);
    forall k: nat | k < j ensures StampsAt(r, k, left) {
      StepStamps(r, k, left);
    }
    i := StampedWhen(r, j, n, left);
  }

  lemma SentGrows(r: seq<State>, i: nat, j: nat, left: bool)
    requires Run(r) && i <= j < |r|
    ensures Sent(Side(r[i], left)) <= Sent(Side(r[j], left))
  {
    RunGrows(r, i, j);
  }

  /**
   A message sent between two states of a run carries an ack for all that was received
   before the first, and for no more than what was received before the second.
   */
  lemma AcksCurrent(r: seq<State>, i: nat, j: nat, n: nat, left: bool)
    requires Run(r) && i <= j < |r|
    requires Sent(Side(r[i], left)) <= n < Sent(Side(r[j], left))
    ensures Side(r[i], left).inmsg <= Side(r[j], left).acks[n] <= Side(r[j], left).inmsg
  {
    var k := AckExact(r, j, n, left);
    if k < i {
      SentGrows(r, k + 1, i, left);
    }
    ReceivedGrows(r, i, k, left);
    ReceivedGrows(r, k, j, left);
  }

  // ---- stopping ----

  /** The message that means end of file has been sent, and nothing comes after it. */
  ghost predicate SentEnd(x: Endpoint) {
    && 0 < Sent(x) == |x.log| && x.log[Sent(x) - 1] == []
    && !x.main.MainHold? && !x.main.MainHeader? && !x.main.MainBody?
  }

  /** A session is over for a side only if it sent the empty message or saw the other's. */
  ghost predicate StopOk(x: Endpoint) {
    (x.done ==> x.net.NetClosed? || SentEnd(x)) && (x.net.NetDone? ==> x.done && SentEnd(x))
  }

  lemma QuietStop(x: Endpoint, x': Endpoint)
    requires Local(x) && StopOk(x) && QuietStep(x, x')
    ensures StopOk(x')
  {
    if SentEnd(x) {
      assert x.unsent == [] && x.client.ClientDone?;
    }
  }

  lemma SendStop(x: Endpoint, x': Endpoint, w: Wires, w': Wires)
    requires Local(x) && StopOk(x) && SendStep(x, w, x', w')
    ensures StopOk(x')
  {
  }

  lemma ReceiveStop(x: Endpoint, x': Endpoint, w: Wires, w': Wires)
    requires StopOk(x) && ReceiveStep(x, w, x', w')
    ensures StopOk(x')
  {
  }

  lemma EndpointStop(x: Endpoint, x': Endpoint, o: Wires, i: Wires, o': Wires, i': Wires)
    requires Local(x) && StopOk(x) && EndpointStep(x, o, i, x', o', i')
    ensures StopOk(x')
  {
    if QuietStep(x, x') {
      QuietStop(x, x');
    } else if SendStep(x, o, x', o') {
      SendStop(x, x', o, o');
    } else {
      ReceiveStop(x, x', i, i');
    }
  }

  /** In every run: no side stops before it has sent the end of its input or seen that of the other. */
  lemma {:induction false} StopsAtEnd(r: seq<State>, i: nat)
    requires Run(r) && i < |r|
    ensures StopOk(r[i].a) && StopOk(r[i].b)
  {
    if i > 0 {
      StopsAtEnd(r, i - 1);
      RunInv(r, i - 1);
      var s, s' := r[i - 1], r[(i - 1) + 1];
      if EndpointStep(s.a, s.ab, s.ba, s'.a, s'.ab, s'.ba) && s'.b == s.b {
        EndpointStop(s.a, s'.a, s.ab, s.ba, s'.ab, s'.ba);
      } else if EndpointStep(s.b, s.ba, s.ab, s'.b, s'.ba, s'.ab) && s'.a == s.a {
        EndpointStop(s.b, s'.b, s.ba, s.ab, s'.ba, s'.ab);
      }
    }
  }
}
