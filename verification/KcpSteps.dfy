/** Every step of either endpoint keeps the two-endpoint invariant. */
module KcpSteps {
  import opened Words
  import opened KcpWire
  import opened KcpSpec
  import opened KcpInvariant
  import opened KcpDatagram
  import opened KcpSystem
  import opened KcpDelivery
  import opened KcpFlush

  lemma AckFlushPair(n: Node, p: Node, env: Env)
    requires Pair(n, p)
    ensures Pair(Emit(n, Flush(n.k, true, env)), p)
  {
    hide Pair, Sane, AllGood;
    SanePair(n, p);
    AckNet(n, env);
    assert n.hist + Frags(n.k.sndQueue[..0]) == n.hist;
    EmitPair(n, p, Emit(n, Flush(n.k, true, env)), Flush(n.k, true, env).out);
  }

  lemma SanePair(n: Node, p: Node)
    requires Pair(n, p)
    ensures Sane(n) && Sane(p)
  {
  }

  /** The flush is a refill, an emission and a rewrite of the send buffer. */
  lemma DataFlushIs(n: Node, env: Env)
    ensures var o, n1 := Flush(n.k, false, env), RefilledNode(n, env);
            Emit(n, o) == n1.(k := n1.k.(sndBuf := Swept(n.k, env).0), net := n1.net + (set dg | dg in o.out))
  {
    hide Swept, Refilled;
    RefilledIs(n.k, env);
  }

  lemma DataFlushPair(n: Node, p: Node, env: Env)
    requires Pair(n, p) && |RefilledNode(n, env).hist| <= LIMIT
    ensures Pair(Emit(n, Flush(n.k, false, env)), p)
  {
    hide Pair, Sane, AllGood, Flush, Emit, Refilled, SameSegment, Swept;
    var o, n1 := Flush(n.k, false, env), RefilledNode(n, env);
    SanePair(n, p);
    RefilledPair(n, p, env);
    FlushNet(n, env);
    SweptSame(n, env);
    RefilledIs(n.k, env);
    var n2 := n1.(net := n1.net + (set dg | dg in o.out));
    EmitPair(n1, p, n2, o.out);
    SweptPair(n2, p, Swept(n.k, env).0);
    DataFlushIs(n, env);
  }

  lemma SweptSame(n: Node, env: Env)
    ensures var buf, swept := RefilledNode(n, env).k.sndBuf, Swept(n.k, env).0;
            |swept| == |buf| && forall i :: 0 <= i < |buf| ==> SameSegment(buf[i], swept[i])
  {
    hide Sweep, Refilled;
    SweepKeeps(Refilled(n.k, env).sndBuf, FlushPass(n.k, env), env.clock(1), 2, Announced(n.k, env));
  }

  lemma FlushPair(n: Node, p: Node, ackOnly: bool, env: Env)
    requires Pair(n, p)
    ensures var n' := Emit(n, Flush(n.k, ackOnly, env)); |n'.hist| <= LIMIT ==> Pair(n', p)
  {
    hide Pair, Flush, Emit;
    if ackOnly {
      AckFlushPair(n, p, env);
    } else {
      DataFlushIs(n, env);
      if |RefilledNode(n, env).hist| <= LIMIT {
        DataFlushPair(n, p, env);
      }
    }
  }

  /** Parsing a datagram of the peer, before anything is flushed in reply. */
  lemma ParsedPair(n: Node, p: Node, dg: seq<Segment>, regular: bool)
    requires Pair(n, p) && dg in p.net && Sized(dg)
    ensures var r := InputLoop(n.k, EncodeAll(dg), regular, false);
            r.code == 0 && r.k.sndQueue == n.k.sndQueue && Pair(n.(k := r.k), p)
  {
    assert forall i :: 0 <= i < |dg| ==> Legit(p, dg[i]);
    InputLoopParses(n.k, dg, p.k.Mss(), regular, false);
    ProcessAllPair(n, p, dg, regular, false);
  }

  /** Only the send queue's length matters to what `Emit` records of the old endpoint. */
  lemma EmitAfter(n: Node, k: Endpoint, o: Outcome)
    requires k.sndQueue == n.k.sndQueue
    ensures Emit(n, o) == Emit(n.(k := k), o)
  {
  }

  lemma EmitNothing(n: Node, k: Endpoint, code: int)
    requires k.sndQueue == n.k.sndQueue
    ensures Emit(n, Outcome(k, code, [])) == n.(k := k)
  {
    assert n.hist + Frags(n.k.sndQueue[..0]) == n.hist;
    var none: seq<seq<Segment>> := [];
    assert n.net + (set dg | dg in none) == n.net;
  }

  lemma InputPair(n: Node, p: Node, dg: seq<Segment>, regular: bool, ackNoDelay: bool, env: Env)
    requires Pair(n, p) && dg in p.net && Sized(dg)
    ensures var n' := Emit(n, Input(n.k, EncodeAll(dg), regular, ackNoDelay, env)); |n'.hist| <= LIMIT ==> Pair(n', p)
  {
    hide Pair, Emit, Flush, InputLoop;
    var r := InputLoop(n.k, EncodeAll(dg), regular, false);
    ParsedPair(n, p, dg, regular);
    if |EncodeAll(dg)| < OVERHEAD {
      EmitNothing(n, n.k, -1);
    } else if r.slides || (ackNoDelay && r.k.acklist != []) {
      EmitAfter(n, r.k, Flush(r.k, !r.slides, env));
      FlushPair(n.(k := r.k), p, !r.slides, env);
    } else {
      EmitNothing(n, r.k, 0);
    }
  }

  lemma SendPair(n: Node, p: Node, buf: seq<byte>)
    requires Pair(n, p)
    ensures Pair(DoSend(n, buf), p)
  {
    hide Valid, NetLegit, AcksKept, Stored, Kept;
    SendKeeps(n.k, buf);
    var n' := DoSend(n, buf);
    assert n'.k == n.k.(sndQueue := n'.k.sndQueue);
    hide Send;
    SenderChange(n, p, n');
  }

  lemma PopStores(r: Node, hist: seq<Frag>, m: nat)
    requires Stored(r, hist) && m <= |r.k.rcvQueue|
    ensures Stored(r.(k := r.k.(rcvQueue := r.k.rcvQueue[m..]), read := r.read + Frags(r.k.rcvQueue[..m])), hist)
  {
    assert Frags(r.k.rcvQueue[..m]) + Frags(r.k.rcvQueue[m..]) == Frags(r.k.rcvQueue);
    assert r.read + Frags(r.k.rcvQueue[..m]) + Frags(r.k.rcvQueue[m..]) == r.read + Frags(r.k.rcvQueue);
  }

  lemma RecvPair(n: Node, p: Node, capacity: nat)
    requires Pair(n, p)
    ensures Pair(DoRecv(n, capacity), p)
  {
    if Recv(n.k, capacity).code >= 0 {
      var n' := DoRecv(n, capacity);
      var m := MessageLength(n.k.rcvQueue);
      var n1 := n.(k := n.k.(rcvQueue := n.k.rcvQueue[m..]), read := n'.read);
      PopStores(n, p.hist, m);
      MoveReadyStores(n1, p.hist);
      RecvKeeps(n.k, capacity);
      hide Valid, NetLegit, Booked;
      assert Stored(n', p.hist);
      assert forall sn: u32 :: Kept(n.k, sn) ==> Kept(n1.k, sn);
      assert Advances(n, n') && AcksKept(n');
      hide Stored, Kept, MoveReady;
      ReceiverChange(n, p, n');
    }
  }

  lemma PairSymmetric(n: Node, p: Node)
    requires Pair(n, p)
    ensures Pair(p, n)
  {
  }

  /** Only fields the invariant does not mention differ. */
  lemma RelabelPair(n: Node, p: Node, n': Node)
    requires Pair(n, p)
    requires n' == n.(sent := n'.sent, msgs := n'.msgs, got := n'.got, out := n'.out, pending := n'.pending)
    ensures Pair(n', p)
  {
    assert forall dg, i :: dg in n.net && 0 <= i < |dg| && Legit(n, dg[i]) ==> Legit(n', dg[i]);
  }

  lemma ReadPair(n: Node, p: Node, capacity: nat)
    requires Pair(n, p)
    ensures Pair(DoRead(n, capacity), p)
  {
    hide Pair, Recv, MessageLength;
    var size := PeekSize(n.k.rcvQueue);
    if n.pending != [] || size <= 0 {
      RelabelPair(n, p, DoRead(n, capacity));
    } else {
      RecvPair(n, p, Max(capacity, size));
      RelabelPair(DoRecv(n, Max(capacity, size)), p, DoRead(n, capacity));
    }
  }

  lemma StepPair(n: Node, p: Node, step: Step)
    requires Pair(n, p) && Enabled(n, p, step)
    ensures Pair(DoStep(n, step), p)
  {
    hide Pair, Recv, DoRecv, DoRead, Flush, Input, DoSend;
    match step
    case SendStep(buf) => SendPair(n, p, buf);
    case FlushStep(ackOnly, env) => FlushPair(n, p, ackOnly, env);
    case InputStep(dg, regular, ackNoDelay, env) =>
      if Sized(dg) {
        InputPair(n, p, dg, regular, ackNoDelay, env);
      }
    case RecvStep(capacity) =>
      if n.pending == [] && Recv(n.k, capacity).code >= 0 {
        RecvPair(n, p, capacity);
        RelabelPair(DoRecv(n, capacity), p, DoStep(n, step));
      }
    case ReadStep(capacity) => ReadPair(n, p, capacity);
  }
}
