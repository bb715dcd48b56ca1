/** The byte-stream view of a KCP endpoint: reads of any size with a pending tail, and
    writes cut into segments before they reach `send`. */
module KcpSession {
  import opened Words
  import opened Wrappers
  import opened KcpWire
  import S = KcpSpec
  import opened KcpInvariant
  import opened KcpClass
  import opened KcpSystem
  import opened KcpTheorems
  import D = KcpDatagram

  /** `b.chunks(size)` */
  function Chunks(b: seq<byte>, size: nat): seq<seq<byte>>
    requires size > 0
    decreases |b|
  {
    if b == [] then [] else [b[..Min(|b|, size)]] + Chunks(b[Min(|b|, size)..], size)
  }

  function SendAll(k: Endpoint, chunks: seq<seq<byte>>): Endpoint
    decreases |chunks|
  {
    if chunks == [] then k else SendAll(S.Send(k, chunks[0]).0, chunks[1..])
  }

  function SendBuffers(k: Endpoint, bufs: seq<seq<byte>>): Endpoint
    decreases |bufs|
  {
    if bufs == [] then k else SendBuffers(SendAll(k, Chunks(bufs[0], k.Mss())), bufs[1..])
  }

  /** A piece no longer than a segment is never refused and is accepted whole. */
  lemma ShortSend(k: Endpoint, piece: seq<byte>)
    requires 0 < |piece| <= k.Mss()
    ensures S.Send(k, piece).1 == 0 && Accepted(k, piece) == |piece|
    ensures S.Send(k, piece).0 == k.(sndQueue := S.Send(k, piece).0.sndQueue)
    ensures Flat(Frags(S.Send(k, piece).0.sndQueue)) == Flat(Frags(k.sndQueue)) + piece
  {
    SendQueues(k, piece);
    assert piece[..|piece|] == piece;
  }

  lemma {:induction false} SendAllQueues(k: Endpoint, b: seq<byte>)
    ensures var k' := SendAll(k, Chunks(b, k.Mss()));
            && k' == k.(sndQueue := k'.sndQueue)
            && Flat(Frags(k'.sndQueue)) == Flat(Frags(k.sndQueue)) + b
    decreases |b|
  {
    hide S.Send, Accepted, Flat, Frags;
    if b != [] {
      var m := Min(|b|, k.Mss());
      ShortSend(k, b[..m]);
      SendAllQueues(S.Send(k, b[..m]).0, b[m..]);
      assert b[..m] + b[m..] == b;
      assert Chunks(b, k.Mss())[1..] == Chunks(b[m..], k.Mss());
    }
  }

  /** Everything written is queued, in order; nothing is refused half-way. */
  lemma {:induction false} SendBuffersQueues(k: Endpoint, bufs: seq<seq<byte>>)
    ensures var k' := SendBuffers(k, bufs);
            && k' == k.(sndQueue := k'.sndQueue)
            && Flat(Frags(k'.sndQueue)) == Flat(Frags(k.sndQueue)) + Concat(bufs)
    decreases |bufs|
  {
    hide Flat, SendAll, Chunks;
    if bufs != [] {
      SendAllQueues(k, bufs[0]);
      SendBuffersQueues(SendAll(k, Chunks(bufs[0], k.Mss())), bufs[1..]);
    }
  }

  /** An endpoint state and pending tail as a node with no past. */
  function Fresh(k: Endpoint, pending: seq<byte>): Node {
    Node(k, [], {}, [], [], [], [], [], pending)
  }

  predicate CanWrite(k: Endpoint) {
    |k.sndBuf| + |k.sndQueue| < Min(k.sndWnd, k.rmtWnd)
  }

  predicate MustFlush(k: Endpoint, writeDelay: bool) {
    !CanWrite(k) || !writeDelay
  }

  ghost predicate Large(packets: seq<seq<byte>>) {
    forall i :: 0 <= i < |packets| ==> |packets[i]| >= OVERHEAD
  }

  /** The datagrams of one flush are all long enough to be transmitted. */
  lemma FlushLarge(k: Endpoint, ackOnly: bool, env: S.Env)
    requires Valid(k)
    ensures AllSized(S.Flush(k, ackOnly, env).out) && Large(EncodeEach(S.Flush(k, ackOnly, env).out))
  {
    var out := S.Flush(k, ackOnly, env).out;
    forall dg | dg in out ensures Sized(dg) && |EncodeAll(dg)| >= OVERHEAD {
      D.FlushRoundTrip(k, ackOnly, env, dg, k, true, false, env);
    }
  }

  // ---- What the receive buffer of the read loop bounds ----

  const MTU_LIMIT: nat := 1500

  ghost predicate Short(q: seq<Segment>) {
    forall i :: 0 <= i < |q| ==> |q[i].data| <= MTU_LIMIT - OVERHEAD
  }

  /** Everything received came in datagrams of at most `MTU_LIMIT` bytes, and a full receive
      queue of that is still within an `i32`. */
  ghost predicate Bounded(k: Endpoint) {
    Short(k.rcvQueue) && Short(k.rcvBuf) && k.rcvWnd * (MTU_LIMIT - OVERHEAD) < TWO31
  }

  lemma {:induction false} ShortBytes(q: seq<Segment>)
    requires Short(q)
    ensures |S.Bytes(q)| <= |q| * (MTU_LIMIT - OVERHEAD)
  {
    if q != [] {
      ShortBytes(q[1..]);
    }
  }

  /** So the size of a message is what `peek_size` says it is. */
  lemma SizeFits(k: Endpoint)
    requires Valid(k) && Bounded(k)
    ensures S.MessageSize(k.rcvQueue) < TWO31 && S.PeekSize(k.rcvQueue) == S.MessageSize(k.rcvQueue)
  {
    hide S.MessageLength, S.Bytes;
    var q := k.rcvQueue;
    ShortBytes(q[..S.MessageLength(q)]);
    Kcp.WrapMinusOne();
    if S.MessageSize(q) >= 0 {
      WrapSmall(S.MessageSize(q));
    }
  }

  /** Segments of the largest size that only the last one ends. */
  function Endless(n: nat): (q: seq<Segment>)
    ensures |q| == n && Short(q)
  {
    if n == 0 then []
    else [BLANK.(frg := if n == 1 then 0 else 1, data := Zeros(MTU_LIMIT - OVERHEAD))] + Endless(n - 1)
  }

  lemma {:induction false} EndlessMessage(n: nat)
    ensures S.MessageLength(Endless(n)) == n && |S.Bytes(Endless(n))| == n * (MTU_LIMIT - OVERHEAD)
  {
    if n > 0 {
      EndlessMessage(n - 1);
      assert Endless(n)[1..] == Endless(n - 1);
    }
  }

  /** Whatever bytes a peer sends, `peek_size` tells the size of every message exactly for
      receive windows below 2^31 / 1476; `wnd_size` asks no such thing. */
  lemma SizeFitsWindow(wnd: S.wnd32)
    ensures (forall k :: Valid(k) && Short(k.rcvQueue) && Short(k.rcvBuf) && k.rcvWnd == wnd
                         ==> S.PeekSize(k.rcvQueue) == S.MessageSize(k.rcvQueue))
            <==> wnd * (MTU_LIMIT - OVERHEAD) < TWO31
  {
    if wnd * (MTU_LIMIT - OVERHEAD) < TWO31 {
      forall k | Valid(k) && Short(k.rcvQueue) && Short(k.rcvBuf) && k.rcvWnd == wnd
        ensures S.PeekSize(k.rcvQueue) == S.MessageSize(k.rcvQueue)
      {
        SizeFits(k);
      }
    } else {
      var k := EndlessEndpoint(wnd);
    }
  }

  lemma QuietValid(wnd: S.wnd32, q: seq<Segment>)
    requires |q| <= wnd
    ensures Valid(S.New(0).(rcvWnd := wnd, rcvQueue := q))
  {
    WrapSmall(0);
  }

  lemma EndlessEndpoint(wnd: S.wnd32) returns (k: Endpoint)
    requires wnd * (MTU_LIMIT - OVERHEAD) >= TWO31
    ensures Valid(k) && Short(k.rcvQueue) && Short(k.rcvBuf) && k.rcvWnd == wnd
    ensures S.PeekSize(k.rcvQueue) != S.MessageSize(k.rcvQueue)
  {
    hide S.Bytes, S.MessageLength, Wrap, Valid;
    k := S.New(0).(rcvWnd := wnd, rcvQueue := Endless(wnd));
    QuietValid(wnd, Endless(wnd));
    EndlessMessage(wnd);
    assert k.rcvQueue[..wnd] == k.rcvQueue;
  }

  lemma {:induction false} InsertShort(buf: seq<Segment>, seg: Segment)
    requires Short(buf) && Short([seg])
    ensures Short(S.Insert(buf, seg))
  {
    assert |[seg][0].data| <= MTU_LIMIT - OVERHEAD;
    if buf != [] {
      InsertShort(buf[..|buf| - 1], seg);
    }
  }

  lemma ProcessBounded(k: Endpoint, seg: Segment, regular: bool)
    requires Bounded(k) && Short([seg])
    ensures Bounded(S.Process(k, seg, regular))
  {
    hide Bounded, Wrap, TimeDiff, S.Acknowledge, S.ParseAck, S.ParsePush;
    var k0 := if regular then k.(rmtWnd := seg.wnd) else k;
    var k1 := S.Acknowledge(k0, seg.una);
    AcknowledgeReceives(k0, seg.una);
    ParseAckReceives(k1, seg.sn, seg.ts);
    SameReceiving(k, k1);
    SameReceiving(k, k1.(askTell := true));
    SameReceiving(k, S.ParseAck(k1, seg.sn, seg.ts));
    PushBounded(k1, seg);
  }

  lemma SameReceiving(k: Endpoint, k': Endpoint)
    requires Bounded(k) && k'.rcvQueue == k.rcvQueue && k'.rcvBuf == k.rcvBuf && k'.rcvWnd == k.rcvWnd
    ensures Bounded(k')
  {
  }

  lemma PushBounded(k: Endpoint, seg: Segment)
    requires Bounded(k) && Short([seg])
    ensures Bounded(S.ParsePush(k, seg))
  {
    hide Wrap, TimeDiff, S.Insert, S.ReadyCount;
    InsertShort(k.rcvBuf, seg);
  }

  lemma AcknowledgeReceives(k: Endpoint, una: u32)
    ensures var k' := S.Acknowledge(k, una);
            k'.rcvQueue == k.rcvQueue && k'.rcvBuf == k.rcvBuf && k'.rcvWnd == k.rcvWnd
  {
  }

  lemma ParseAckReceives(k: Endpoint, sn: u32, ts: u32)
    ensures var k' := S.ParseAck(k, sn, ts);
            k'.rcvQueue == k.rcvQueue && k'.rcvBuf == k.rcvBuf && k'.rcvWnd == k.rcvWnd
  {
  }

  lemma {:induction false} InputLoopBounded(k: Endpoint, data: seq<byte>, regular: bool, slides: bool)
    requires Bounded(k) && |data| <= MTU_LIMIT
    ensures Bounded(S.InputLoop(k, data, regular, slides).k)
    decreases |data|
  {
    hide Bounded, S.Process, S.Slides, S.KnownCommand;
    if |data| >= OVERHEAD {
      var head, rest, n := HeadOf(data), data[OVERHEAD..], LengthOf(data);
      if head.conv == k.conv && |rest| >= n && S.KnownCommand(head.cmd) {
        var seg := head.(data := rest[..n]);
        ProcessBounded(k, seg, regular);
        InputLoopBounded(S.Process(k, seg, regular), rest[n..], regular, slides || S.Slides(k, head.una));
      }
    }
  }

  lemma FlushBounded(k: Endpoint, ackOnly: bool, env: S.Env)
    requires Bounded(k)
    ensures Bounded(S.Flush(k, ackOnly, env).k)
  {
    ProbedIs(k, env);
  }

  lemma InputBounded(k: Endpoint, data: seq<byte>, regular: bool, ackNoDelay: bool, env: S.Env)
    requires Bounded(k) && |data| <= MTU_LIMIT
    ensures Bounded(S.Input(k, data, regular, ackNoDelay, env).k)
  {
    hide Bounded, S.InputLoop, S.Flush;
    InputLoopBounded(k, data, regular, false);
    var r := S.InputLoop(k, data, regular, false);
    FlushBounded(r.k, true, env);
    FlushBounded(r.k, false, env);
  }

  lemma RecvBounded(k: Endpoint, capacity: nat)
    requires Bounded(k)
    ensures Bounded(S.Recv(k, capacity).k)
  {
    hide S.MessageLength, S.PeekSize, S.Bytes, S.ReadyCount, Wrap;
  }

  lemma SendBuffersBounded(k: Endpoint, bufs: seq<seq<byte>>)
    requires Bounded(k)
    ensures Bounded(SendBuffers(k, bufs))
  {
    hide SendBuffers;
    SendBuffersQueues(k, bufs);
  }

  /** The datagrams `transmit` passes on. */
  function Passed(packets: seq<seq<byte>>): seq<seq<byte>> {
    if packets == [] then []
    else
      var last := packets[|packets| - 1];
      Passed(packets[..|packets| - 1]) + (if |last| >= OVERHEAD then [last] else [])
  }

  lemma {:induction false} LargePass(packets: seq<seq<byte>>)
    requires Large(packets)
    ensures Passed(packets) == packets
  {
    if packets != [] {
      LargePass(packets[..|packets| - 1]);
      assert packets == packets[..|packets| - 1] + [packets[|packets| - 1]];
    }
  }

  class KcpSession {
    const kcp: Kcp
    var pending: seq<byte>
    var writeDelay: bool
    var ackNoDelay: bool

    ghost predicate Inv()
      reads this, kcp
    {
      kcp.Inv() && Bounded(kcp.State())
    }

    constructor (conv: u32)
      ensures fresh(kcp) && Inv() && kcp.State() == S.New(conv) && kcp.output == []
      ensures pending == [] && !writeDelay && !ackNoDelay
    {
      kcp := new Kcp(conv);
      pending, writeDelay, ackNoDelay := [], false, false;
    }

    /** Takes one message: into `b` if it fits, else through a buffer of its own, keeping the tail. */
    method ReadMessage(b: array<byte>, size: nat) returns (n: nat)
      requires Inv() && pending == [] && 0 < size == S.PeekSize(kcp.rcvQueue)
      modifies this`pending, b, kcp`rcvBuf, kcp`rcvQueue, kcp`rcvNxt, kcp`askTell
      ensures Inv() && n == Min(size, b.Length)
      ensures var r := S.Recv(old(kcp.State()), size);
              && kcp.State() == r.k && |r.data| == size
              && Overwritten(old(b[..]), b[..], r.data[..n]) && pending == r.data[n..]
    {
      hide Valid, Bounded, S.Recv, S.PeekSize, S.MessageSize, S.Bytes, Wrap;
      SizeFits(kcp.State());
      RecvBounded(kcp.State(), size);
      RecvFills(kcp.State(), Max(b.Length, size));
      ghost var data := S.Recv(kcp.State(), size).data;
      if b.Length >= size {
        var _ := kcp.Recv(b);
        assert data[..size] == data;
        return size;
      }
      var msg := new byte[size];
      var _ := kcp.Recv(msg);
      assert msg[..] == data;
      Kcp.CopyInto(b, 0, msg[..b.Length]);
      pending := msg[b.Length..];
      return b.Length;
    }

    /** One turn of `read`'s loop; `None` where the source waits for an event. */
    method Read(b: array<byte>) returns (r: Option<nat>)
      requires Inv()
      modifies this`pending, b, kcp`rcvBuf, kcp`rcvQueue, kcp`rcvNxt, kcp`askTell
      ensures Inv()
      ensures var n := DoRead(Fresh(old(kcp.State()), old(pending)), b.Length);
              && kcp.State() == n.k && pending == n.pending && Overwritten(old(b[..]), b[..], n.out)
              && r == if old(pending) == [] && S.PeekSize(old(kcp.rcvQueue)) <= 0 then None else Some(|n.out|)
    {
      hide Valid, Bounded, S.Recv, S.PeekSize, S.Bytes, S.MessageLength, DoRead, DoRecv, Fresh;
      SizeFits(kcp.State());
      ReadSays(kcp.State(), pending, b.Length);
      if pending != [] {
        var n := Min(|pending|, b.Length);
        Kcp.CopyInto(b, 0, pending[..n]);
        pending := pending[n..];
        return Some(n);
      }
      var size := kcp.PeekSize();
      if size <= 0 {
        assert b[..] == [] + b[..][0..];
        return None;
      }
      var n := ReadMessage(b, size);
      return Some(n);
    }

    /** The three cases of a read. */
    static lemma ReadSays(k: Endpoint, pending: seq<byte>, capacity: nat)
      requires S.PeekSize(k.rcvQueue) == S.MessageSize(k.rcvQueue)
      ensures var n, size, m := DoRead(Fresh(k, pending), capacity), S.PeekSize(k.rcvQueue), Min(|pending|, capacity);
              if pending != [] then n.k == k && n.out == pending[..m] && n.pending == pending[m..]
              else if size <= 0 then n.k == k && n.out == [] && n.pending == []
              else
                var r := S.Recv(k, size);
                && n.k == r.k && |r.data| == size
                && n.out == r.data[..Min(size, capacity)] && n.pending == r.data[Min(size, capacity)..]
    {
      hide Wrap, S.MessageLength, S.Bytes, S.MoveReady;
      if pending == [] && S.PeekSize(k.rcvQueue) > 0 {
        RecvFills(k, Max(capacity, S.PeekSize(k.rcvQueue)));
        RecvFills(k, S.PeekSize(k.rcvQueue));
      }
    }

    static lemma RecvFills(k: Endpoint, capacity: nat)
      requires 0 < S.PeekSize(k.rcvQueue) == S.MessageSize(k.rcvQueue) <= capacity
      ensures |S.Recv(k, capacity).data| == S.PeekSize(k.rcvQueue) && S.Recv(k, capacity).code >= 0
      ensures S.Recv(k, capacity) == S.Recv(k, S.PeekSize(k.rcvQueue))
    {
      hide Wrap, S.MessageLength, S.Bytes, S.MoveReady;
    }

    /** Passes on what the last KCP call produced, without what is shorter than a header. */
    method Transmit(packets: seq<seq<byte>>) returns (sent: seq<seq<byte>>)
      ensures sent == Passed(packets)
    {
      sent := [];
      for i := 0 to |packets|
        invariant sent == Passed(packets[..i])
      {
        assert packets[..i + 1][..i] == packets[..i];
        if |packets[i]| >= OVERHEAD {
          sent := sent + [packets[i]];
        }
      }
      assert packets[..|packets|] == packets;
    }

    /** A datagram from the read loop; reports whether readers and writers may go on. */
    method Input(data: seq<byte>, env: S.Env) returns (readable: bool, writable: bool, sent: seq<seq<byte>>)
      requires Inv() && kcp.output == [] && |data| <= MTU_LIMIT
      modifies kcp
      ensures Inv() && kcp.output == []
      ensures var o := S.Input(old(kcp.State()), data, true, ackNoDelay, env);
              && kcp.State() == o.k && AllSized(o.out) && sent == Passed(EncodeEach(o.out))
      ensures readable == (S.PeekSize(kcp.rcvQueue) > 0)
      ensures writable == (|kcp.sndBuf| + |kcp.sndQueue| < kcp.sndWnd && |kcp.sndBuf| + |kcp.sndQueue| < kcp.rmtWnd)
    {
      hide Valid, Bounded, S.Input, S.PeekSize;
      InputBounded(kcp.State(), data, true, ackNoDelay, env);
      var _ := kcp.Input(data, true, ackNoDelay, env);
      var size := kcp.PeekSize();
      readable := size > 0;
      var waitsnd := |kcp.sndBuf| + |kcp.sndQueue|;
      writable := waitsnd < kcp.sndWnd && waitsnd < kcp.rmtWnd;
      sent := SendOutput(EncodeEach(S.Input(old(kcp.State()), data, true, ackNoDelay, env).out));
    }

    /** `take_output` and `transmit`. */
    method SendOutput(ghost out: seq<seq<byte>>) returns (sent: seq<seq<byte>>)
      requires kcp.output == [] + out
      modifies kcp`output
      ensures kcp.output == [] && sent == Passed(out)
    {
      assert [] + out == out;
      var packets := kcp.TakeOutput();
      sent := Transmit(packets);
    }

    /** One turn of `write_buffers`'s loop; `None` where the source waits for room. */
    method WriteBuffers(bufs: seq<seq<byte>>, env: S.Env) returns (r: Option<nat>, sent: seq<seq<byte>>)
      requires Inv() && kcp.output == []
      modifies kcp
      ensures Inv() && kcp.output == [] && (r.Some? <==> CanWrite(old(kcp.State())))
      ensures var k1 := SendBuffers(old(kcp.State()), bufs);
              MustFlush(k1, writeDelay) <==>
                |k1.sndBuf| + |k1.sndQueue| >= k1.sndWnd || |k1.sndBuf| + |k1.sndQueue| >= k1.rmtWnd || !writeDelay
      ensures var k := old(kcp.State()); var k1 := SendBuffers(k, bufs);
              var waiting, waiting1 := |k.sndBuf| + |k.sndQueue|, |k1.sndBuf| + |k1.sndQueue|;
              if waiting >= k.sndWnd || waiting >= k.rmtWnd then r == None && kcp.State() == k && sent == []
              else
                && r == Some(|Concat(bufs)|)
                && if waiting1 >= k1.sndWnd || waiting1 >= k1.rmtWnd || !writeDelay
                   then kcp.State() == S.Flush(k1, false, env).k && AllSized(S.Flush(k1, false, env).out)
                        && sent == EncodeEach(S.Flush(k1, false, env).out)
                   else kcp.State() == k1 && sent == []
    {
      hide Valid, Bounded, S.Flush, SendBuffers, Concat;
      SendBuffersBounded(kcp.State(), bufs);
      var waitsnd := |kcp.sndBuf| + |kcp.sndQueue|;
      if !(waitsnd < kcp.sndWnd && waitsnd < kcp.rmtWnd) {
        return None, [];
      }
      var n := QueueBuffers(bufs);
      waitsnd := |kcp.sndBuf| + |kcp.sndQueue|;
      r, sent := Some(n), [];
      if waitsnd >= kcp.sndWnd || waitsnd >= kcp.rmtWnd || !writeDelay {
        sent := FlushAll(env);
      }
    }

    /** `flush`, `take_output` and `transmit`: nothing is too short to be sent. */
    method FlushAll(env: S.Env) returns (sent: seq<seq<byte>>)
      requires Inv() && kcp.output == []
      modifies kcp
      ensures Inv() && kcp.output == []
      ensures var o := S.Flush(old(kcp.State()), false, env);
              kcp.State() == o.k && AllSized(o.out) && sent == EncodeEach(o.out)
    {
      hide Valid, Bounded, S.Flush;
      ghost var k := kcp.State();
      FlushLarge(k, false, env);
      FlushBounded(k, false, env);
      kcp.Flush(false, env);
      LargePass(EncodeEach(S.Flush(k, false, env).out));
      sent := SendOutput(EncodeEach(S.Flush(k, false, env).out));
    }

    /** Cuts every buffer into pieces of at most `mss` bytes and sends them. */
    method QueueBuffers(bufs: seq<seq<byte>>) returns (n: nat)
      requires kcp.Inv()
      modifies kcp`sndQueue
      ensures kcp.Inv() && kcp.State() == SendBuffers(old(kcp.State()), bufs) && n == |Concat(bufs)|
    {
      hide Valid, S.Send, Chunks, SendAll;
      n := 0;
      ghost var k := kcp.State();
      for i := 0 to |bufs|
        invariant kcp.Inv() && SendBuffers(kcp.State(), bufs[i..]) == SendBuffers(k, bufs)
        invariant n + |Concat(bufs[i..])| == |Concat(bufs)|
      {
        assert bufs[i..][1..] == bufs[i + 1..];
        n := n + |bufs[i]|;
        QueueChunks(Chunks(bufs[i], kcp.mss));
      }
    }

    method QueueChunks(chunks: seq<seq<byte>>)
      requires kcp.Inv()
      modifies kcp`sndQueue
      ensures kcp.Inv() && kcp.State() == SendAll(old(kcp.State()), chunks)
    {
      hide Valid, S.Send;
      ghost var k := kcp.State();
      for i := 0 to |chunks|
        invariant kcp.Inv() && SendAll(kcp.State(), chunks[i..]) == SendAll(k, chunks)
      {
        assert chunks[i..][1..] == chunks[i + 1..];
        var _ := kcp.Send(chunks[i]);
      }
    }
  }
}
