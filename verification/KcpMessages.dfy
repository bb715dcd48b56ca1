/** Message mode: the receiver gets back the sender's messages, whole and one by one. */
module KcpMessages {
  import opened Words
  import opened KcpWire
  import opened KcpSpec
  import opened KcpSystem
  import opened KcpInvariant
  import opened KcpDelivery
  import opened KcpTheorems

  /** Messages `send` accepts in message mode: not empty and at most 255 fragments. */
  predicate Sendable(msg: seq<byte>, mss: nat)
    requires mss > 0
  {
    msg != [] && FragmentCount(|msg|, mss) <= 255
  }

  ghost predicate AllSendable(msgs: seq<seq<byte>>, mss: nat)
    requires mss > 0
  {
    forall i :: 0 <= i < |msgs| ==> Sendable(msgs[i], mss)
  }

  function Pieces(msg: seq<byte>, mss: nat): seq<Frag>
    requires mss > 0 && Sendable(msg, mss)
  {
    Frags(Fragments(msg, mss, FragmentCount(|msg|, mss), false))
  }

  function Image(msgs: seq<seq<byte>>, mss: nat): seq<Frag>
    requires mss > 0 && AllSendable(msgs, mss)
  {
    if msgs == [] then [] else Pieces(msgs[0], mss) + Image(msgs[1..], mss)
  }

  lemma {:induction false} ImageAppend(a: seq<seq<byte>>, b: seq<seq<byte>>, mss: nat)
    requires mss > 0 && AllSendable(a, mss) && AllSendable(b, mss)
    ensures AllSendable(a + b, mss) && Image(a + b, mss) == Image(a, mss) + Image(b, mss)
  {
    if a == [] {
      assert a + b == b;
    } else {
      assert (a + b)[1..] == a[1..] + b;
      ImageAppend(a[1..], b, mss);
    }
  }

  lemma {:induction false} FragmentIds(buf: seq<byte>, mss: nat, count: nat, i: nat)
    requires i < count <= 255
    ensures var q := Fragments(buf, mss, count, false); |q| == count && q[i].frg == count - 1 - i
  {
    FragmentsSmall(buf, mss, count, false);
    if i > 0 {
      FragmentIds(buf[Min(|buf|, mss)..], mss, count - 1, i - 1);
    }
  }

  /** A message's pieces count down to zero and concatenate to the message. */
  lemma PiecesAre(msg: seq<byte>, mss: nat)
    requires mss > 0 && Sendable(msg, mss)
    ensures var ps := Pieces(msg, mss);
            && |ps| == FragmentCount(|msg|, mss) > 0
            && Flat(ps) == msg
            && forall i :: 0 <= i < |ps| ==> ps[i].id == |ps| - 1 - i
  {
    var count := FragmentCount(|msg|, mss);
    FragmentCountCovers(|msg|, mss);
    FragmentsFlat(msg, mss, count, false);
    assert count > 0;
    FragmentsSmall(msg, mss, count, false);
    forall i | 0 <= i < count ensures Pieces(msg, mss)[i].id == count - 1 - i {
      FragmentIds(msg, mss, count, i);
    }
  }

  lemma {:induction false} CountdownLength(q: seq<Segment>, n: nat)
    requires 0 < n <= |q| && forall i :: 0 <= i < n ==> q[i].frg == n - 1 - i
    ensures MessageLength(q) == n
  {
    if n > 1 {
      CountdownLength(q[1..], n - 1);
    }
  }

  /** If `recv` succeeds on a queue holding the start of `msgs`, it pops the first message. */
  lemma TakeMessage(q: seq<Segment>, msgs: seq<seq<byte>>, mss: nat)
    requires mss > 0 && AllSendable(msgs, mss) && Frags(q) <= Image(msgs, mss) && PeekSize(q) >= 0
    ensures msgs != []
    ensures var n := MessageLength(q);
            Frags(q[..n]) == Pieces(msgs[0], mss) && Bytes(q[..n]) == msgs[0]
  {
    assert Frags(q)[0] == Image(msgs, mss)[0];
    var ps := Pieces(msgs[0], mss);
    PiecesAre(msgs[0], mss);
    assert q[0].frg == ps[0].id == |ps| - 1;
    forall i | 0 <= i < |ps| ensures q[i].frg == |ps| - 1 - i {
      assert Frags(q)[i] == Image(msgs, mss)[i];
      assert Image(msgs, mss)[i] == ps[i];
    }
    CountdownLength(q, |ps|);
    assert Frags(q[..|ps|]) == Frags(q)[..|ps|] == Image(msgs, mss)[..|ps|] == ps;
    BytesAreFlat(q[..|ps|]);
  }

  ghost predicate Said(n: Node) {
    AllSendable(n.msgs, n.k.Mss()) && Line(n) == Image(n.msgs, n.k.Mss())
  }

  ghost predicate Listened(r: Node, s: Node)
    requires AllSendable(s.msgs, s.k.Mss())
  {
    && r.got <= s.msgs
    && r.read == Image(s.msgs[..|r.got|], s.k.Mss())
  }

  /** What a sender in message mode and its peer have agreed on so far. */
  ghost predicate Conversed(s: Node, r: Node) {
    !s.k.stream ==> Said(s) && Listened(r, s)
  }

  /** Message mode queues the pieces of the whole message or nothing. */
  lemma SendQueuesPieces(n: Node, buf: seq<byte>)
    requires !n.k.stream
    ensures var n', mss := DoSend(n, buf), n.k.Mss();
            && n'.k.Mss() == mss && n'.k.stream == n.k.stream && n'.got == n.got
            && if buf != [] && Sendable(buf, mss)
               then n'.msgs == n.msgs + [buf] && Line(n') == Line(n) + Pieces(buf, mss)
               else n'.msgs == n.msgs && Line(n') == Line(n)
  {
    hide FragmentCount;
    assert buf[0..] == buf;
    var mss := n.k.Mss();
    if buf != [] && Sendable(buf, mss) {
      var more := Fragments(buf, mss, FragmentCount(|buf|, mss), false);
      assert Frags(n.k.sndQueue + more) == Frags(n.k.sndQueue) + Frags(more);
      assert n.hist + (Frags(n.k.sndQueue) + Frags(more)) == Line(n) + Frags(more);
    }
  }

  lemma ImageOne(msg: seq<byte>, mss: nat)
    requires mss > 0 && Sendable(msg, mss)
    ensures AllSendable([msg], mss) && Image([msg], mss) == Pieces(msg, mss)
  {
    assert Pieces(msg, mss) + [] == Pieces(msg, mss);
  }

  lemma SendSays(n: Node, r: Node, buf: seq<byte>)
    requires Conversed(n, r)
    ensures Conversed(DoSend(n, buf), r)
  {
    hide DoSend, Image, Pieces, Sendable;
    var mss := n.k.Mss();
    if n.k.stream {
      SendKeepsMode(n, buf);
    } else {
      SendQueuesPieces(n, buf);
      if buf != [] && Sendable(buf, mss) {
        ImageOne(buf, mss);
        ImageAppend(n.msgs, [buf], mss);
        assert (n.msgs + [buf])[..|r.got|] == n.msgs[..|r.got|];
      }
    }
  }

  lemma SendKeepsMode(n: Node, buf: seq<byte>)
    ensures DoSend(n, buf).k.stream == n.k.stream
  {
  }

  /** A successful `recv` pops the pieces of the next message not yet received. */
  lemma NextMessage(s: Node, r: Node)
    requires Said(s) && Listened(r, s) && Stored(r, s.hist) && PeekSize(r.k.rcvQueue) >= 0
    ensures |r.got| < |s.msgs|
    ensures var n := MessageLength(r.k.rcvQueue); var msg := s.msgs[|r.got|];
            Frags(r.k.rcvQueue[..n]) == Pieces(msg, s.k.Mss()) && Bytes(r.k.rcvQueue[..n]) == msg
  {
    var mss, j := s.k.Mss(), |r.got|;
    var past, rest := s.msgs[..j], s.msgs[j..];
    assert past + rest == s.msgs;
    ImageAppend(past, rest, mss);
    hide MessageLength, PeekSize, Bytes, Pieces, Sendable, Kept;
    assert r.read + Frags(r.k.rcvQueue) <= r.read + Image(rest, mss);
    PrefixTail(r.read, Frags(r.k.rcvQueue), Image(rest, mss));
    hide Image, Stored, Said, Listened;
    TakeMessage(r.k.rcvQueue, rest, mss);
  }

  lemma RecvListens(s: Node, r: Node, capacity: nat)
    requires Conversed(s, r) && Stored(r, s.hist)
    ensures Conversed(s, DoRecv(r, capacity))
  {
    if !s.k.stream && Recv(r.k, capacity).code >= 0 {
      hide Bytes, MessageLength, PeekSize, Pieces, Sendable, Stored, MoveReady;
      NextMessage(s, r);
      var mss, j := s.k.Mss(), |r.got|;
      var past, msg := s.msgs[..j], s.msgs[j];
      assert s.msgs[..j + 1] == past + [msg];
      assert Image([msg], mss) == Pieces(msg, mss) + [];
      ImageAppend(past, [msg], mss);
    }
  }

  lemma PrefixTail(a: seq<Frag>, b: seq<Frag>, c: seq<Frag>)
    requires a + b <= a + c
    ensures b <= c
  {
    assert (a + b)[|a|..] == b && (a + c)[|a|..] == c;
    assert forall i :: 0 <= i < |b| ==> b[i] == (a + b)[|a| + i];
  }

  lemma EmitSays(n: Node, r: Node, o: Outcome, m: nat)
    requires Conversed(n, r) && m <= |n.k.sndQueue| && o.k.sndQueue == n.k.sndQueue[m..]
    requires o.k.mtu == n.k.mtu && o.k.stream == n.k.stream
    ensures Conversed(Emit(n, o), r)
  {
    hide Frags;
    LineMoves(n.hist, n.k.sndQueue, m);
  }
}
