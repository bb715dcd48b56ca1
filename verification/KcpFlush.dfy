/** `flush` keeps the two-endpoint invariant: it numbers segments inside the peer's window
    and puts only true statements on the wire. */
module KcpFlush {
  import opened Words
  import opened KcpWire
  import opened KcpSpec
  import opened KcpInvariant
  import opened KcpDatagram
  import opened KcpSystem
  import opened KcpDelivery

  /** `n` after `flush` has refilled its send buffer, before anything is stamped. */
  function RefilledNode(n: Node, env: Env): Node {
    n.(k := Refilled(n.k, env),
       hist := n.hist + Frags(n.k.sndQueue[..Admitted(n.k, SendWindow(n.k, env.cwnd))]))
  }

  lemma RefilledIs(k: Endpoint, env: Env)
    ensures var k' := Refilled(k, env); var m := Admitted(k, SendWindow(k, env.cwnd));
            && k'.sndBuf == k.sndBuf + Number(k.sndQueue[..m], k.conv, k.sndNxt)
            && k'.sndNxt == Wrap(k.sndNxt + m) && k'.sndQueue == k.sndQueue[m..]
            && k' == k.(sndBuf := k'.sndBuf, sndNxt := k'.sndNxt, sndQueue := k'.sndQueue, acklist := [],
                        askSend := false, askTell := false, tsProbe := k'.tsProbe, probeWait := k'.probeWait)
  {
    ProbedIs(k, env);
  }

  lemma BooksAppend(buf: seq<Segment>, una: int, hist: seq<Frag>, q: seq<Segment>, conv: u32)
    requires Books(buf, una, hist) && |hist| + |q| <= LIMIT
    ensures Books(buf + Number(q, conv, |hist|), una, hist + Frags(q))
    ensures Unacked(q) ==> Unacked(Number(q, conv, |hist|))
  {
    hide Number;
    var r := Number(q, conv, |hist|);
    forall i | 0 <= i < |q|
      ensures r[i].sn == |hist| + i && FragOf(r[i]) == Frags(q)[i] && r[i].acked == q[i].acked
    {
      NumberAt(q, conv, |hist|, i);
    }
  }

  lemma RefilledBooked(n: Node, env: Env)
    requires Sane(n) && |RefilledNode(n, env).hist| <= LIMIT
    ensures Booked(RefilledNode(n, env))
  {
    hide Valid, NetLegit, AcksKept, Wrap;
    var m := Admitted(n.k, SendWindow(n.k, env.cwnd));
    RefilledIs(n.k, env);
    WrapSmall(n.k.sndNxt + m);
    hide Refilled;
    BooksAppend(n.k.sndBuf, n.k.sndUna, n.hist, n.k.sndQueue[..m], n.k.conv);
  }

  lemma StoredLonger(r: Node, hist: seq<Frag>, more: seq<Frag>)
    requires Stored(r, hist)
    ensures Stored(r, hist + more)
  {
    assert (hist + more)[..r.k.rcvNxt] == hist[..r.k.rcvNxt];
  }

  /** What refilling adds: unacknowledged segments, no more than the advertised window. */
  lemma RefilledSize(n: Node, env: Env)
    requires Booked(n) && Unacked(n.k.sndQueue) && |RefilledNode(n, env).hist| <= LIMIT
    ensures var k1 := Refilled(n.k, env);
            && k1.sndUna == n.k.sndUna && k1.rmtWnd == n.k.rmtWnd
            && n.k.sndNxt <= k1.sndNxt <= Max(n.k.sndNxt, n.k.sndUna + n.k.rmtWnd)
            && n.k.sndBuf <= k1.sndBuf
            && forall i :: |n.k.sndBuf| <= i < |k1.sndBuf| ==> !k1.sndBuf[i].acked
  {
    var m := Admitted(n.k, SendWindow(n.k, env.cwnd));
    var q := n.k.sndQueue[..m];
    RefilledIs(n.k, env);
    BooksAppend(n.k.sndBuf, n.k.sndUna, n.hist, q, n.k.conv);
    WrapSmall(n.k.sndNxt + m);
    hide Wrap, Refilled, Number;
    assert Refilled(n.k, env).sndNxt == n.k.sndNxt + m;
    assert m > 0 ==> |n.k.sndBuf| + m <= n.k.rmtWnd;
  }

  /** New numbers stay inside the window the peer advertised, however old the advert is. */
  lemma RefilledLink(n: Node, p: Node, env: Env)
    requires Pair(n, p) && |RefilledNode(n, env).hist| <= LIMIT
    ensures Link(RefilledNode(n, env), p)
  {
    var k1 := Refilled(n.k, env);
    RefilledSize(n, env);
    StoredLonger(p, n.hist, RefilledNode(n, env).hist[|n.hist|..]);
    hide Valid, NetLegit, AcksKept, Kept, Stored, Booked, Refilled, Unacked;
    forall i | 0 <= i < |k1.sndBuf| && k1.sndBuf[i].acked ensures Kept(p.k, k1.sndBuf[i].sn) {
      assert i < |n.k.sndBuf| && k1.sndBuf[i] == n.k.sndBuf[i];
    }
  }

  lemma SentLegit(n: Node, s: Segment, t: Segment, wnd: u16, una: u32)
    requires Valid(n.k) && Booked(n) && s in n.k.sndBuf && EmittedFrom(s, t, wnd, una)
    requires wnd <= n.k.rcvWnd && una <= n.k.rcvNxt
    ensures Legit(n, t)
  {
    SentIsParsable(n.k, s, t, wnd, una);
    var i :| 0 <= i < |n.k.sndBuf| && n.k.sndBuf[i] == s;
    assert s.cmd == CMD_PUSH;
    hide Valid, Parsable;
    assert t.sn == n.k.sndUna + i && FragOf(t) == FragOf(s);
  }

  lemma DataLegit(n: Node, env: Env, s: Segment, t: Segment)
    requires Sane(n) && |RefilledNode(n, env).hist| <= LIMIT
    requires s in Refilled(n.k, env).sndBuf && EmittedFrom(s, t, Unused(n.k), n.k.rcvNxt)
    ensures Legit(RefilledNode(n, env), t)
  {
    hide Booked, Legit, EmittedFrom, NetLegit, AcksKept, Refilled;
    RefilledKeeps(n.k, env);
    RefilledBooked(n, env);
    RefilledIs(n.k, env);
    SentLegit(RefilledNode(n, env), s, t, Unused(n.k), n.k.rcvNxt);
  }

  /** Acknowledgements and probes are true: only kept numbers are acknowledged. */
  lemma ControlLegit(n: Node, n1: Node)
    requires AcksKept(n) && n1.k.rcvNxt == n.k.rcvNxt && n1.k.rcvWnd == n.k.rcvWnd <= 65535
    requires n1.k.rcvBuf == n.k.rcvBuf && n1.k.conv == n.k.conv
    ensures forall j :: 0 <= j < |n.k.acklist| ==>
              Legit(n1, Control(n.k).(sn := n.k.acklist[j].0, ts := n.k.acklist[j].1))
    ensures Legit(n1, AfterAcks(n.k).(cmd := CMD_WASK)) && Legit(n1, AfterAcks(n.k).(cmd := CMD_WINS))
  {
    forall sn: u32 | Kept(n.k, sn) ensures Kept(n1.k, sn) {
    }
  }

  /** Everything `flush` may put on the wire is true of the endpoint it leaves behind. */
  lemma CoversLegit(n: Node, env: Env)
    requires Sane(n) && |RefilledNode(n, env).hist| <= LIMIT
    ensures Covers(n.k, env, s => Legit(RefilledNode(n, env), s))
  {
    var n1 := RefilledNode(n, env);
    RefilledIs(n.k, env);
    ControlLegit(n, n1);
    forall s, t | s in n1.k.sndBuf && EmittedFrom(s, t, Unused(n.k), n.k.rcvNxt) ensures Legit(n1, t) {
      DataLegit(n, env, s, t);
    }
    hide Sane, Legit, Refilled, EmittedFrom, Control, AfterAcks;
    assert forall s: Segment :: (s => Legit(n1, s))(s) == Legit(n1, s);
  }

  lemma FlushNet(n: Node, env: Env)
    requires Sane(n) && |RefilledNode(n, env).hist| <= LIMIT
    ensures AllGood(Flush(n.k, false, env).out, n.k.mtu, s => Legit(RefilledNode(n, env), s))
  {
    CoversLegit(n, env);
    FlushPacks(n.k, false, env, s => Legit(RefilledNode(n, env), s));
  }

  lemma AckNet(n: Node, env: Env)
    requires Sane(n)
    ensures AllGood(Flush(n.k, true, env).out, n.k.mtu, s => Legit(n, s))
  {
    ControlLegit(n, n);
    hide Sane, Legit;
    PutAcksPacks(n.k.acklist, 0, Control(n.k), n.k.rcvNxt, n.k.mtu, Packer([], []), s => Legit(n, s));
  }

  /** Emitting true datagrams, with the acknowledgements they carried taken off the list. */
  lemma EmitPair(n: Node, p: Node, n': Node, out: seq<seq<Segment>>)
    requires Pair(n, p) && AllGood(out, n.k.mtu, s => Legit(n, s))
    requires n' == n.(k := n.k.(acklist := n'.k.acklist), net := n.net + (set dg | dg in out))
    requires n'.k.acklist == n.k.acklist || n'.k.acklist == []
    ensures Pair(n', p)
  {
    assert NetLegit(n') by {
      forall dg, i | dg in n'.net && 0 <= i < |dg| ensures Legit(n', dg[i]) {
        if dg !in n.net {
          assert Good(dg, n.k.mtu, s => Legit(n, s));
        }
        assert Legit(n, dg[i]);
      }
    }
    hide NetLegit, Stored, Kept;
  }

  lemma RefilledPair(n: Node, p: Node, env: Env)
    requires Pair(n, p) && |RefilledNode(n, env).hist| <= LIMIT
    ensures Pair(RefilledNode(n, env), p)
  {
    var n1 := RefilledNode(n, env);
    RefilledKeeps(n.k, env);
    RefilledBooked(n, env);
    RefilledLink(n, p, env);
    RefilledIs(n.k, env);
    hide Valid, Booked, Refilled, Legit;
    assert Advances(n, n1);
    AdvancesKeepsLegit(n, n1);
    hide Kept, NetLegit;
    assert Stored(n1, p.hist);
    assert Link(p, n1);
  }

  lemma SweptBooks(buf: seq<Segment>, swept: seq<Segment>, una: int, hist: seq<Frag>)
    requires Books(buf, una, hist)
    requires |swept| == |buf| && forall i :: 0 <= i < |buf| ==> SameSegment(buf[i], swept[i])
    ensures Books(swept, una, hist)
    ensures forall i :: 0 <= i < |buf| ==> swept[i].acked == buf[i].acked && swept[i].sn == buf[i].sn
  {
  }

  lemma SweptPair(n: Node, p: Node, swept: seq<Segment>)
    requires Pair(n, p)
    requires |swept| == |n.k.sndBuf| && forall i :: 0 <= i < |swept| ==> SameSegment(n.k.sndBuf[i], swept[i])
    ensures Pair(n.(k := n.k.(sndBuf := swept)), p)
  {
    SweptBooks(n.k.sndBuf, swept, n.k.sndUna, n.hist);
    RewriteKeeps(n.k, swept);
    SenderChange(n, p, n.(k := n.k.(sndBuf := swept)));
  }
}
