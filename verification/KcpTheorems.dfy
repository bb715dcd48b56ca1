/** What two KCP endpoints guarantee in every run: in-order delivery without loss,
    duplication or alteration, no early release, and no overrun of the receiver. */
module KcpTheorems {
  import opened Words
  import opened KcpWire
  import opened KcpSpec
  import opened KcpInvariant
  import opened KcpDatagram
  import opened KcpSystem
  import opened KcpDelivery
  import opened KcpFlush
  import opened KcpSteps

  // ---- Bytes and fragments ----

  lemma {:induction false} FlatAppend(a: seq<Frag>, b: seq<Frag>)
    ensures Flat(a + b) == Flat(a) + Flat(b)
  {
    if a == [] {
      assert a + b == b;
    } else {
      assert (a + b)[1..] == a[1..] + b;
      FlatAppend(a[1..], b);
    }
  }

  lemma {:induction false} BytesAreFlat(q: seq<Segment>)
    ensures Bytes(q) == Flat(Frags(q))
  {
    if q != [] {
      BytesAreFlat(q[1..]);
      assert Frags(q) == [FragOf(q[0])] + Frags(q[1..]);
    }
  }

  lemma {:induction false} FragmentsFlat(buf: seq<byte>, mss: nat, count: nat, stream: bool)
    requires mss > 0 && count <= 255 && |buf| <= count * mss
    ensures Flat(Frags(Fragments(buf, mss, count, stream))) == buf
  {
    hide Flat, Frags;
    if count > 0 {
      var size := Min(|buf|, mss);
      OneLess(count, mss);
      FragmentsFlat(buf[size..], mss, count - 1, stream);
      var rest := Fragments(buf[size..], mss, count - 1, stream);
      var first := Fragments(buf, mss, count, stream)[0];
      FlatCons(first, rest);
      assert buf[..size] + buf[size..] == buf;
    } else {
      FlatNothing();
    }
  }

  lemma FlatNothing()
    ensures Flat(Frags([])) == []
  {
  }

  lemma OneLess(count: nat, mss: nat)
    requires count > 0
    ensures count * mss == (count - 1) * mss + mss
  {
  }

  lemma FlatCons(first: Segment, rest: seq<Segment>)
    ensures Flat(Frags([first] + rest)) == first.data + Flat(Frags(rest))
  {
    assert Frags([first] + rest) == [FragOf(first)] + Frags(rest);
  }

  lemma FragmentCountCovers(length: nat, mss: nat)
    requires mss > 0
    ensures length <= FragmentCount(length, mss) * mss
  {
    if length > mss {
      var c := (length + mss - 1) / mss;
      assert length + mss - 1 == c * mss + (length + mss - 1) % mss;
    }
  }

  // ---- What has been said and heard ----

  /** All fragments of a sender, numbered or not yet. */
  function Line(n: Node): seq<Frag> {
    n.hist + Frags(n.k.sndQueue)
  }

  ghost predicate Spoken(n: Node) {
    Flat(Line(n)) == n.sent
  }

  ghost predicate Heard(n: Node) {
    && Flat(n.read) == Concat(n.got)
    && n.out + n.pending == Concat(n.got)
  }

  lemma AbsorbSpeaks(k: Endpoint, buf: seq<byte>)
    ensures Flat(Frags(Absorb(k, buf).sndQueue)) == Flat(Frags(k.sndQueue)) + buf[..Absorbed(k, buf)]
  {
    var n := Absorbed(k, buf);
    if n > 0 {
      var last := |k.sndQueue| - 1;
      var seg := k.sndQueue[last];
      var front := Frags(k.sndQueue[..last]);
      var longer := Frag(seg.frg, seg.data + buf[..n]);
      assert Frags(k.sndQueue) == front + [FragOf(seg)];
      assert Frags(Absorb(k, buf).sndQueue) == front + [longer];
      FlatAppend(front, [FragOf(seg)]);
      FlatAppend(front, [longer]);
      assert Flat([longer]) == Flat([FragOf(seg)]) + buf[..n];
    } else {
      assert buf[..0] == [];
    }
  }

  lemma QueueAppend(q: seq<Segment>, more: seq<Segment>)
    ensures Flat(Frags(q + more)) == Flat(Frags(q)) + Flat(Frags(more))
  {
    assert Frags(q + more) == Frags(q) + Frags(more);
    FlatAppend(Frags(q), Frags(more));
  }

  /** `send` queues exactly the bytes it accepts, whatever its return code. */
  lemma SendQueues(k: Endpoint, buf: seq<byte>)
    ensures Flat(Frags(Send(k, buf).0.sndQueue)) == Flat(Frags(k.sndQueue)) + buf[..Accepted(k, buf)]
  {
    if buf != [] {
      AbsorbSpeaks(k, buf);
      var absorbed := Absorb(k, buf).sndQueue;
      var rest := buf[Absorbed(k, buf)..];
      hide Absorb, Absorbed, Flat, FragmentCount;
      assert buf[..Absorbed(k, buf)] + rest == buf == buf[..|buf|];
      var count := FragmentCount(|rest|, k.Mss());
      if rest != [] && count <= 255 {
        FragmentCountCovers(|rest|, k.Mss());
        FragmentsFlat(rest, k.Mss(), count, k.stream);
        QueueAppend(absorbed, Fragments(rest, k.Mss(), count, k.stream));
      }
    }
  }

  lemma SendSpeaks(n: Node, buf: seq<byte>)
    requires Spoken(n)
    ensures Spoken(DoSend(n, buf))
  {
    FlatAppend(n.hist, Frags(n.k.sndQueue));
    FlatAppend(n.hist, Frags(Send(n.k, buf).0.sndQueue));
    SendQueues(n.k, buf);
    hide Send, Accepted, Flat;
  }

  lemma RecvHears(n: Node, capacity: nat)
    requires Flat(n.read) == Concat(n.got)
    ensures Flat(DoRecv(n, capacity).read) == Concat(DoRecv(n, capacity).got)
  {
    var popped := n.k.rcvQueue[..MessageLength(n.k.rcvQueue)];
    BytesAreFlat(popped);
    FlatAppend(n.read, Frags(popped));
    ConcatAppend(n.got, Bytes(popped));
  }

  lemma RecvSucceeds(k: Endpoint, capacity: nat)
    requires 0 < PeekSize(k.rcvQueue) <= capacity
    ensures Recv(k, capacity).code >= 0
  {
  }

  /** Whatever buffers the reader brings, it gets the received bytes in order. */
  lemma ReadHears(n: Node, capacity: nat)
    requires Heard(n)
    ensures Heard(DoRead(n, capacity))
  {
    hide Recv, PeekSize, Concat, Flat, Frags;
    if n.pending != [] {
      var m := Min(|n.pending|, capacity);
      assert n.pending[..m] + n.pending[m..] == n.pending;
    } else {
      var size := PeekSize(n.k.rcvQueue);
      if size > 0 {
        RecvHears(n, Max(capacity, size));
        RecvSucceeds(n.k, Max(capacity, size));
        var data := Recv(n.k, Max(capacity, size)).data;
        var m := Min(|data|, capacity);
        ConcatAppend(n.got, data);
        assert data[..m] + data[m..] == data;
        assert n.out + data[..m] + data[m..] == n.out + data;
        assert n.out == Concat(n.got);
      }
    }
  }

  lemma EmitSpeaks(n: Node, o: Outcome, m: nat)
    requires Spoken(n) && m <= |n.k.sndQueue| && o.k.sndQueue == n.k.sndQueue[m..]
    ensures Spoken(Emit(n, o)) && Line(Emit(n, o)) == Line(n)
  {
    hide Flat, Frags;
    LineMoves(n.hist, n.k.sndQueue, m);
  }

  lemma LineMoves(hist: seq<Frag>, q: seq<Segment>, m: nat)
    requires m <= |q|
    ensures hist + Frags(q[..m]) + Frags(q[m..]) == hist + Frags(q)
  {
    FragsSplit(q, m);
    hide *;
    var a, b := Frags(q[..m]), Frags(q[m..]);
    assert hist + a + b == hist + (a + b);
  }

  lemma FragsSplit(q: seq<Segment>, m: nat)
    requires m <= |q|
    ensures Frags(q[..m]) + Frags(q[m..]) == Frags(q)
  {
  }

  lemma FlushQueue(k: Endpoint, ackOnly: bool, env: Env) returns (m: nat)
    ensures m <= |k.sndQueue| && Flush(k, ackOnly, env).k.sndQueue == k.sndQueue[m..]
  {
    RefilledIs(k, env);
    m := if ackOnly then 0 else Admitted(k, SendWindow(k, env.cwnd));
  }

  lemma InputQueue(n: Node, p: Node, dg: seq<Segment>, regular: bool, ackNoDelay: bool, env: Env) returns (m: nat)
    requires Pair(n, p) && dg in p.net && Sized(dg)
    ensures m <= |n.k.sndQueue|
    ensures Input(n.k, EncodeAll(dg), regular, ackNoDelay, env).k.sndQueue == n.k.sndQueue[m..]
  {
    assert forall i :: 0 <= i < |dg| ==> Legit(p, dg[i]);
    InputLoopParses(n.k, dg, p.k.Mss(), regular, false);
    ProcessAllPair(n, p, dg, regular, false);
    var r := ProcessAll(n.k, dg, regular, false);
    hide Pair, Legit, ProcessAll, InputLoop, Flush;
    m := 0;
    if |EncodeAll(dg)| >= OVERHEAD && (r.slides || (ackNoDelay && r.k.acklist != [])) {
      m := FlushQueue(r.k, !r.slides, env);
    }
  }

  /** The whole invariant of a run. */
  ghost predicate Inv(s: Sys) {
    && Pair(s.a, s.b)
    && Spoken(s.a) && Spoken(s.b) && Heard(s.a) && Heard(s.b)
  }

  lemma StepText(n: Node, p: Node, step: Step)
    requires Pair(n, p) && Enabled(n, p, step) && Spoken(n) && Heard(n)
    ensures Spoken(DoStep(n, step)) && Heard(DoStep(n, step))
  {
    hide Pair, Spoken, Heard, Flush, Input, Line, Flat, Concat;
    match step
    case SendStep(buf) =>
      SendSpeaks(n, buf);
      QuietSend(n, buf);
    case RecvStep(capacity) =>
      RecvText(n, capacity);
    case ReadStep(capacity) =>
      ReadHears(n, capacity);
      ReadQuiet(n, capacity);
    case FlushStep(ackOnly, env) =>
      var m := FlushQueue(n.k, ackOnly, env);
      EmitSpeaks(n, Flush(n.k, ackOnly, env), m);
      EmitQuiet(n, Flush(n.k, ackOnly, env));
    case InputStep(dg, regular, ackNoDelay, env) =>
      if Sized(dg) {
        var m := InputQueue(n, p, dg, regular, ackNoDelay, env);
        EmitSpeaks(n, Input(n.k, EncodeAll(dg), regular, ackNoDelay, env), m);
        EmitQuiet(n, Input(n.k, EncodeAll(dg), regular, ackNoDelay, env));
      }
  }

  lemma QuietSend(n: Node, buf: seq<byte>)
    requires Heard(n)
    ensures Heard(DoSend(n, buf))
  {
  }

  lemma EmitQuiet(n: Node, o: Outcome)
    requires Heard(n)
    ensures Heard(Emit(n, o))
  {
  }

  lemma RecvText(n: Node, capacity: nat)
    requires Heard(n) && Spoken(n)
    ensures Heard(DoStep(n, RecvStep(capacity))) && Spoken(DoStep(n, RecvStep(capacity)))
  {
    if n.pending == [] && Recv(n.k, capacity).code >= 0 {
      RecvHears(n, capacity);
      ConcatAppend(n.got, Recv(n.k, capacity).data);
      RecvFrame(n.k, capacity);
    }
  }

  lemma RecvFrame(k: Endpoint, capacity: nat)
    ensures Recv(k, capacity).k.sndQueue == k.sndQueue
  {
  }

  lemma ReadQuiet(n: Node, capacity: nat)
    requires Spoken(n)
    ensures Spoken(DoRead(n, capacity))
  {
    RecvFrame(n.k, Max(capacity, PeekSize(n.k.rcvQueue)));
  }

  lemma NextInv(s: Sys, m: Move)
    requires Inv(s)
    ensures Inv(Next(s, m))
  {
    if m.left && Enabled(s.a, s.b, m.step) {
      StepPair(s.a, s.b, m.step);
      StepText(s.a, s.b, m.step);
    } else if !m.left && Enabled(s.b, s.a, m.step) {
      PairSymmetric(s.a, s.b);
      StepPair(s.b, s.a, m.step);
      StepText(s.b, s.a, m.step);
      PairSymmetric(DoStep(s.b, m.step), s.a);
    }
  }
}
