/** What can be in flight on a wire of `aan`: numbered frames, in order, without gaps. */
module AanStream {
  import opened AanModel

  /** How the chunks on a wire stop: after message `n - 1`, after the header of `n`, or inside a body. */
  datatype End = Full(n: nat) | Partial(n: nat) | Broken

  /** Message `n` as it was first stamped. */
  function Message(log: seq<Bytes>, acks: seq<nat>, n: nat): Buf
    requires n < |acks| <= |log|
  {
    Buf(n, acks[n], log[n])
  }

  /**
   The chunks are idle frames and consecutive messages from number `k` on, exactly
   as logged, and stop as `e` says.
   */
  ghost predicate Stream(items: seq<Chunk>, k: nat, log: seq<Bytes>, acks: seq<nat>, e: End)
    decreases |items|
  {
    |acks| <= |log| &&
    if items == [] then e == Full(k)
    else match items[0]
      case Body(_) => false
      case Header(nb, msg, acked) =>
        if msg < 0 then nb == 0 && Stream(items[1..], k, log, acks, e)
        else
          && k < |acks| && items[0] == HeaderOf(Message(log, acks, k))
          && (if nb == 0 then Stream(items[1..], k + 1, log, acks, e)
              else if |items| == 1 then e == Partial(k)
              else items[1].Body? &&
                   if items[1].data == log[k] then Stream(items[2..], k + 1, log, acks, e)
                   else items[1].data < log[k] && |items| == 2 && e == Broken)
  }

  /** Longer logs describe the same wire. */
  lemma {:induction false} StreamExtend(items: seq<Chunk>, k: nat, log: seq<Bytes>, acks: seq<nat>, e: End,
                                        log': seq<Bytes>, acks': seq<nat>)
    requires Stream(items, k, log, acks, e)
    requires log <= log' && acks <= acks' && |acks'| <= |log'|
    ensures Stream(items, k, log', acks', e)
    decreases |items|
  {
    if items != [] {
      if items[0].msg < 0 {
        StreamExtend(items[1..], k, log, acks, e, log', acks');
      } else if items[0].nb == 0 {
        StreamExtend(items[1..], k + 1, log, acks, e, log', acks');
      } else if |items| > 1 && items[1].data == log[k] {
        StreamExtend(items[2..], k + 1, log, acks, e, log', acks');
      }
    }
  }

  /** Writing on: more chunks after a complete frame continue the numbering. */
  lemma {:induction false} StreamAppend(items: seq<Chunk>, k: nat, log: seq<Bytes>, acks: seq<nat>, n: nat,
                                        more: seq<Chunk>, e: End)
    requires Stream(items, k, log, acks, Full(n)) && Stream(more, n, log, acks, e)
    ensures Stream(items + more, k, log, acks, e)
    decreases |items|
  {
    if items == [] {
      assert items + more == more;
    } else if items[0].msg < 0 {
      StreamAppend(items[1..], k, log, acks, n, more, e);
      assert (items + more)[1..] == items[1..] + more;
    } else if items[0].nb == 0 {
      StreamAppend(items[1..], k + 1, log, acks, n, more, e);
      assert (items + more)[1..] == items[1..] + more;
    } else {
      StreamAppend(items[2..], k + 1, log, acks, n, more, e);
      assert (items + more)[2..] == items[2..] + more;
    }
  }

  /** Writing the body after its header completes the frame. */
  lemma {:induction false} StreamBody(items: seq<Chunk>, k: nat, log: seq<Bytes>, acks: seq<nat>, n: nat)
    requires Stream(items, k, log, acks, Partial(n))
    ensures n < |log| && Stream(items + [Body(log[n])], k, log, acks, Full(n + 1))
    decreases |items|
  {
    if items[0].msg < 0 {
      StreamBody(items[1..], k, log, acks, n);
      assert (items + [Body(log[n])])[1..] == items[1..] + [Body(log[n])];
    } else if items[0].nb == 0 {
      StreamBody(items[1..], k + 1, log, acks, n);
      assert (items + [Body(log[n])])[1..] == items[1..] + [Body(log[n])];
    } else if |items| == 1 {
      assert (items + [Body(log[n])])[2..] == [];
    } else {
      StreamBody(items[2..], k + 1, log, acks, n);
      assert (items + [Body(log[n])])[2..] == items[2..] + [Body(log[n])];
    }
  }

  lemma StreamHeader(log: seq<Bytes>, acks: seq<nat>, n: nat)
    requires n < |acks| <= |log|
    ensures Stream([HeaderOf(Message(log, acks, n))], n, log, acks, if log[n] == [] then Full(n + 1) else Partial(n))
  {
    var items := [HeaderOf(Message(log, acks, n))];
    assert items[1..] == [];
  }

  lemma StreamIdle(log: seq<Bytes>, acks: seq<nat>, n: nat, a: nat)
    requires |acks| <= |log|
    ensures Stream([Header(0, -1, a)], n, log, acks, Full(n))
  {
    assert [Header(0, -1, a)][1..] == [];
  }

  /** Retransmission: the frames of consecutive messages are themselves in order. */
  lemma {:induction false} StreamFrames(bs: seq<Buf>, k: nat, log: seq<Bytes>, acks: seq<nat>)
    requires |acks| <= |log| && k + |bs| <= |acks|
    requires forall j :: 0 <= j < |bs| ==> bs[j] == Message(log, acks, k + j)
    ensures Stream(Frames(bs), k, log, acks, Full(k + |bs|))
    decreases |bs|
  {
    if bs != [] {
      forall j | 0 <= j < |bs[1..]| ensures bs[1..][j] == Message(log, acks, k + 1 + j) {
        assert bs[1..][j] == bs[j + 1];
      }
      StreamFrames(bs[1..], k + 1, log, acks);
      var b, rest := bs[0], Frames(bs[1..]);
      assert b == Message(log, acks, k + 0);
      var items := [HeaderOf(b)] + BodyOf(b) + rest;
      assert Frames(bs) == items;
      if b.data == [] {
        assert items[1..] == rest;
      } else {
        assert items[1] == Body(b.data) && items[2..] == rest;
      }
    }
  }

  /** A prefix of what was in flight is still in order. */
  lemma {:induction false} StreamPrefix(items: seq<Chunk>, k: nat, log: seq<Bytes>, acks: seq<nat>, e: End, j: nat)
      returns (e': End)
    requires Stream(items, k, log, acks, e) && j <= |items|
    ensures Stream(items[..j], k, log, acks, e')
    decreases |items|
  {
    if j == 0 {
      e' := Full(k);
    } else if items[0].msg < 0 {
      e' := StreamPrefix(items[1..], k, log, acks, e, j - 1);
      assert items[..j][1..] == items[1..][..j - 1];
    } else if items[0].nb == 0 {
      e' := StreamPrefix(items[1..], k + 1, log, acks, e, j - 1);
      assert items[..j][1..] == items[1..][..j - 1];
    } else if j == 1 {
      e' := Partial(k);
    } else if items[1].data == log[k] {
      e' := StreamPrefix(items[2..], k + 1, log, acks, e, j - 2);
      assert items[..j][2..] == items[2..][..j - 2];
    } else {
      e' := Broken;
      assert items[..j] == items;
    }
  }

  /** And so is a prefix whose last body is torn. */
  lemma {:induction false} StreamTorn(items: seq<Chunk>, k: nat, log: seq<Bytes>, acks: seq<nat>, e: End, j: nat,
                                      t: nat)
      returns (e': End)
    requires Stream(items, k, log, acks, e) && j < |items| && items[j].Body? && t < |items[j].data|
    ensures Stream(Torn(items, j, t), k, log, acks, e')
    decreases |items|
  {
    var cut := Torn(items, j, t);
    if items[0].msg < 0 {
      e' := StreamTorn(items[1..], k, log, acks, e, j - 1, t);
      assert cut[1..] == Torn(items[1..], j - 1, t);
    } else if items[0].nb == 0 {
      e' := StreamTorn(items[1..], k + 1, log, acks, e, j - 1, t);
      assert cut[1..] == Torn(items[1..], j - 1, t);
    } else if j == 1 {
      e' := Broken;
      var whole, part := items[1].data, items[1].data[..t];
      assert part < log[k] && part != log[k];
      assert cut == [items[0], Body(part)];
    } else {
      e' := StreamTorn(items[2..], k + 1, log, acks, e, j - 2, t);
      assert items[2..][j - 2] == items[j] && items[2..][..j - 2] == items[..j][2..];
      assert cut[2..] == Torn(items[2..], j - 2, t);
    }
  }

  /** Any cut keeps the order. */
  lemma StreamSevered(items: seq<Chunk>, k: nat, log: seq<Bytes>, acks: seq<nat>, e: End, items': seq<Chunk>)
      returns (e': End)
    requires Stream(items, k, log, acks, e) && Severed(items, items')
    ensures Stream(items', k, log, acks, e')
  {
    if j: nat :| j <= |items| && items' == items[..j] {
      e' := StreamPrefix(items, k, log, acks, e, j);
    } else {
      var j: nat, t: nat :| j < |items| && items[j].Body? && t < |items[j].data| && items' == Torn(items, j, t);
      e' := StreamTorn(items, k, log, acks, e, j, t);
    }
  }
}
