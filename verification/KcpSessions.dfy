/** Two KCP sessions over the packet connection: what one reads is a prefix of what the other
    wrote, and no datagram is too long for the buffers on its way. */
module KcpSessions {
  import opened Words
  import opened KcpWire
  import opened KcpSpec
  import opened KcpInvariant
  import opened KcpSystem
  import opened KcpDelivery
  import opened KcpTheorems
  import opened KcpRuns
  import opened KcpSession
  import D = KcpDatagram

  // ---- Session calls as moves of the system ----

  /** A call of one session, or one turn of its read or update loop. */
  datatype Call =
    | WriteCall(bufs: seq<seq<byte>>, writeDelay: bool, env: Env)
    | ReadCall(capacity: nat)
    | InputCall(dg: seq<Segment>, ackNoDelay: bool, env: Env)
    | UpdateCall(env: Env)

  datatype Event = Event(left: bool, call: Call)

  /** What a write hands to `send`, piece by piece. */
  function AllChunks(bufs: seq<seq<byte>>, mss: nat): seq<seq<byte>>
    requires mss > 0
  {
    if bufs == [] then [] else Chunks(bufs[0], mss) + AllChunks(bufs[1..], mss)
  }

  function SendMoves(left: bool, pieces: seq<seq<byte>>): (moves: seq<Move>)
    ensures |moves| == |pieces|
  {
    if pieces == [] then [] else [Move(left, SendStep(pieces[0]))] + SendMoves(left, pieces[1..])
  }

  function Moves(n: Node, left: bool, call: Call): seq<Move> {
    match call
    case WriteCall(bufs, writeDelay, env) =>
      if !CanWrite(n.k) then []
      else SendMoves(left, AllChunks(bufs, n.k.Mss()))
           + if MustFlush(SendBuffers(n.k, bufs), writeDelay) then [Move(left, FlushStep(false, env))] else []
    case ReadCall(capacity) => [Move(left, ReadStep(capacity))]
    case InputCall(dg, ackNoDelay, env) => [Move(left, InputStep(dg, true, ackNoDelay, env))]
    case UpdateCall(env) => [Move(left, FlushStep(false, env))]
  }

  /** The bytes a call reports as written. */
  function Written(n: Node, call: Call): seq<byte> {
    if call.WriteCall? && CanWrite(n.k) then Concat(call.bufs) else []
  }

  /** Both sessions, with all that was written to each so far. */
  datatype Talk = Talk(s: Sys, a: seq<byte>, b: seq<byte>)

  function Side(s: Sys, left: bool): Node {
    if left then s.a else s.b
  }

  function After(t: Talk, e: Event): Talk {
    var n := Side(t.s, e.left);
    var bytes := Written(n, e.call);
    Talk(Run(t.s, Moves(n, e.left, e.call)),
         if e.left then t.a + bytes else t.a, if e.left then t.b else t.b + bytes)
  }

  function Conversation(t: Talk, events: seq<Event>): Talk
    decreases |events|
  {
    if events == [] then t else Conversation(After(t, events[0]), events[1..])
  }

  // ---- Writes ----

  ghost predicate Within(s: Sys) {
    |s.a.hist| <= LIMIT && |s.b.hist| <= LIMIT
  }

  ghost predicate AllShort(pieces: seq<seq<byte>>, mss: nat) {
    forall i :: 0 <= i < |pieces| ==> 0 < |pieces[i]| <= mss
  }

  lemma {:induction false} ChunksShort(b: seq<byte>, size: nat)
    requires size > 0
    ensures AllShort(Chunks(b, size), size) && Concat(Chunks(b, size)) == b
    decreases |b|
  {
    if b != [] {
      var m := Min(|b|, size);
      ChunksShort(b[m..], size);
      assert b[..m] + b[m..] == b;
      assert Chunks(b, size)[1..] == Chunks(b[m..], size);
    }
  }

  lemma {:induction false} ConcatJoin(a: seq<seq<byte>>, b: seq<seq<byte>>)
    ensures Concat(a + b) == Concat(a) + Concat(b)
  {
    if a == [] {
      assert a + b == b;
    } else {
      assert (a + b)[1..] == a[1..] + b;
      ConcatJoin(a[1..], b);
    }
  }

  lemma {:induction false} AllChunksShort(bufs: seq<seq<byte>>, mss: nat)
    requires mss > 0
    ensures AllShort(AllChunks(bufs, mss), mss) && Concat(AllChunks(bufs, mss)) == Concat(bufs)
  {
    hide Chunks;
    if bufs != [] {
      ChunksShort(bufs[0], mss);
      AllChunksShort(bufs[1..], mss);
      ConcatJoin(Chunks(bufs[0], mss), AllChunks(bufs[1..], mss));
    }
  }

  lemma {:induction false} SendAllJoin(k: Endpoint, a: seq<seq<byte>>, b: seq<seq<byte>>)
    ensures SendAll(k, a + b) == SendAll(SendAll(k, a), b)
    decreases |a|
  {
    hide Send;
    if a == [] {
      assert a + b == b;
    } else {
      assert (a + b)[1..] == a[1..] + b;
      SendAllJoin(Send(k, a[0]).0, a[1..], b);
    }
  }

  /** A write gives `send` its pieces one after the other. */
  lemma {:induction false} ChunksSent(k: Endpoint, bufs: seq<seq<byte>>)
    ensures SendAll(k, AllChunks(bufs, k.Mss())) == SendBuffers(k, bufs)
    decreases |bufs|
  {
    hide SendAll, Chunks;
    if bufs == [] {
      SendNothing(k);
    } else {
      var first := Chunks(bufs[0], k.Mss());
      SendAllJoin(k, first, AllChunks(bufs[1..], k.Mss()));
      SendAllQueues(k, bufs[0]);
      ChunksSent(SendAll(k, first), bufs[1..]);
    }
  }

  lemma SendNothing(k: Endpoint)
    ensures SendAll(k, []) == k
  {
  }

  /** One piece of a write, as a move. */
  lemma PieceMoves(s: Sys, left: bool, piece: seq<byte>)
    requires Within(s) && 0 < |piece| <= Side(s, left).k.Mss()
    ensures var n := Side(s, left); var s' := Next(s, Move(left, SendStep(piece)));
            && Side(s', left) == DoSend(n, piece) && Side(s', !left) == Side(s, !left) && Within(s')
            && Side(s', left).k == Send(n.k, piece).0 && Side(s', left).k.Mss() == n.k.Mss()
            && Side(s', left).sent == n.sent + piece
  {
    hide Send, Flat, Frags, Accepted;
    ShortSend(Side(s, left).k, piece);
    assert piece[..|piece|] == piece;
  }

  lemma {:induction false} SendMovesRun(s: Sys, left: bool, pieces: seq<seq<byte>>)
    requires Within(s) && AllShort(pieces, Side(s, left).k.Mss())
    ensures var n := Side(s, left); var s' := Run(s, SendMoves(left, pieces));
            && Within(s') && Side(s', !left) == Side(s, !left)
            && Side(s', left).k == SendAll(n.k, pieces) && Side(s', left).sent == n.sent + Concat(pieces)
    decreases |pieces|
  {
    hide Next, Send, Side;
    if pieces == [] {
      assert Side(s, left).sent + [] == Side(s, left).sent;
    } else {
      var s1 := Next(s, Move(left, SendStep(pieces[0])));
      PieceMoves(s, left, pieces[0]);
      SendMovesRun(s1, left, pieces[1..]);
      assert SendMoves(left, pieces)[1..] == SendMoves(left, pieces[1..]);
      var sent := Side(s, left).sent;
      assert sent + pieces[0] + Concat(pieces[1..]) == sent + (pieces[0] + Concat(pieces[1..]));
    }
  }

  lemma {:induction false} RunJoin(s: Sys, a: seq<Move>, b: seq<Move>)
    ensures Run(s, a + b) == Run(Run(s, a), b)
    decreases |a|
  {
    hide Next;
    if a == [] {
      assert a + b == b;
    } else {
      assert (a + b)[1..] == a[1..] + b;
      RunJoin(Next(s, a[0]), a[1..], b);
    }
  }

  lemma RunOne(s: Sys, m: Move)
    ensures Run(s, [m]) == Next(s, m)
  {
    assert [m][1..] == [];
    assert Run(Next(s, m), []) == Next(s, m);
  }

  /** `write_buffers` is a run: after its pieces the endpoint is what the method leaves, with
      exactly the written bytes accepted, and then it may flush. */
  lemma WriteIsRun(s: Sys, left: bool, bufs: seq<seq<byte>>, writeDelay: bool, env: Env) returns (m: Node)
    requires Within(s) && CanWrite(Side(s, left).k)
    ensures var n := Side(s, left); var s' := Run(s, Moves(n, left, WriteCall(bufs, writeDelay, env)));
            var flush := FlushStep(false, env);
            && m.k == SendBuffers(n.k, bufs) && m.sent == n.sent + Concat(bufs)
            && Side(s', !left) == Side(s, !left) && Within(s')
            && Side(s', left) == if MustFlush(m.k, writeDelay) && Enabled(m, Side(s, !left), flush)
                                 then DoStep(m, flush) else m
  {
    hide Send, Flush, SendAll, SendBuffers, AllChunks, CanWrite, MustFlush;
    var n := Side(s, left);
    var sends := SendMoves(left, AllChunks(bufs, n.k.Mss()));
    AllChunksShort(bufs, n.k.Mss());
    SendMovesRun(s, left, AllChunks(bufs, n.k.Mss()));
    ChunksSent(n.k, bufs);
    var s1 := Run(s, sends);
    m := Side(s1, left);
    var flush := Move(left, FlushStep(false, env));
    if MustFlush(m.k, writeDelay) {
      RunJoin(s, sends, [flush]);
      RunOne(s1, flush);
    } else {
      assert sends + [] == sends;
    }
  }

  // ---- Conversations ----

  /** Only `send` accepts bytes. */
  lemma QuietMove(s: Sys, m: Move)
    requires Within(s) && !m.step.SendStep?
    ensures var s' := Next(s, m); Within(s') && s'.a.sent == s.a.sent && s'.b.sent == s.b.sent
  {
    hide Recv, Flush, Input, PeekSize, MessageLength;
  }

  ghost predicate Faithful(t: Talk) {
    Within(t.s) && t.s.a.sent == t.a && t.s.b.sent == t.b
  }

  lemma AfterFaithful(t: Talk, e: Event)
    requires Faithful(t)
    ensures Faithful(After(t, e))
  {
    hide SendMoves, Next, SendBuffers, DoStep, Enabled, CanWrite;
    var n := Side(t.s, e.left);
    if e.call.WriteCall? {
      if CanWrite(n.k) {
        var m := WriteIsRun(t.s, e.left, e.call.bufs, e.call.writeDelay, e.call.env);
        FlushSends(m, FlushStep(false, e.call.env));
      }
    } else {
      var move := Moves(n, e.left, e.call)[0];
      RunOne(t.s, move);
      QuietMove(t.s, move);
      assert t.a + [] == t.a && t.b + [] == t.b;
    }
  }

  lemma FlushSends(m: Node, step: Step)
    requires step.FlushStep?
    ensures DoStep(m, step).sent == m.sent
  {
  }

  /** A conversation of sessions is a run of the two endpoints. */
  lemma {:induction false} ConversationRuns(t: Talk, events: seq<Event>) returns (moves: seq<Move>)
    requires Faithful(t)
    ensures Conversation(t, events).s == Run(t.s, moves) && Faithful(Conversation(t, events))
    decreases |events|
  {
    hide Moves, Faithful;
    moves := [];
    if events != [] {
      var first := Moves(Side(t.s, events[0].left), events[0].left, events[0].call);
      AfterFaithful(t, events[0]);
      var rest := ConversationRuns(After(t, events[0]), events[1..]);
      RunJoin(t.s, first, rest);
      moves := first + rest;
    }
  }

  function Opened(conv: u32, ca: Config, cb: Config): Talk {
    Talk(Sys(KcpRuns.Start(conv, ca), KcpRuns.Start(conv, cb)), [], [])
  }

  /** In every conversation: what either session's reads returned is a prefix of what the
      other session's writes took. */
  lemma SessionDelivery(conv: u32, ca: Config, cb: Config, events: seq<Event>)
    requires Supported(ca) && Supported(cb)
    ensures var t := Conversation(Opened(conv, ca, cb), events);
            t.s.b.out <= t.a && t.s.a.out <= t.b
  {
    hide Conversation, Run;
    var moves := ConversationRuns(Opened(conv, ca, cb), events);
    PrefixDelivery(conv, ca, cb, moves);
  }

  // ---- Nothing is cut ----

  /** Every datagram emitted is at least a header and at most `mtu` long. */
  ghost predicate Fitted(n: Node) {
    forall dg :: dg in n.net ==> Sized(dg) && OVERHEAD <= |EncodeAll(dg)| <= n.k.mtu
  }

  lemma EmittedFitted(n: Node, k: Endpoint, ackOnly: bool, env: Env)
    requires Fitted(n) && Valid(k) && k.mtu == n.k.mtu
    ensures Fitted(Emit(n, Flush(k, ackOnly, env)))
  {
    FlushFrame(k, ackOnly, env);
    forall dg | dg in Flush(k, ackOnly, env).out
      ensures Sized(dg) && OVERHEAD <= |EncodeAll(dg)| <= n.k.mtu
    {
      D.FlushRoundTrip(k, ackOnly, env, dg, k, true, false, env);
    }
    hide Flush, EncodeAll;
  }

  lemma NothingFitted(n: Node, o: Outcome)
    requires Fitted(n) && o.out == [] && o.k.mtu == n.k.mtu
    ensures Fitted(Emit(n, o))
  {
    hide EncodeAll;
  }

  lemma InputFitted(n: Node, data: seq<byte>, regular: bool, ackNoDelay: bool, env: Env)
    requires Fitted(n) && Valid(n.k)
    ensures Fitted(Emit(n, Input(n.k, data, regular, ackNoDelay, env)))
  {
    hide Valid, Fitted, Flush, InputLoop, Emit;
    var o := Input(n.k, data, regular, ackNoDelay, env);
    InputFrame(n.k, data, regular, ackNoDelay, env);
    if |data| >= OVERHEAD {
      var r := InputLoop(n.k, data, regular, false);
      InputLoopKeeps(n.k, data, regular, false);
      InputLoopFrame(n.k, data, regular, false);
      EmittedFitted(n, r.k, false, env);
      EmittedFitted(n, r.k, true, env);
    }
    if o.out == [] {
      NothingFitted(n, o);
    }
  }

  lemma StepFitted(n: Node, step: Step)
    requires Fitted(n) && Valid(n.k)
    ensures Fitted(DoStep(n, step))
  {
    hide Valid, Flush, Input, Emit, EncodeAll, Send, Recv, PeekSize, MessageLength, Accepted;
    match step
    case FlushStep(ackOnly, env) => EmittedFitted(n, n.k, ackOnly, env);
    case InputStep(dg, regular, ackNoDelay, env) =>
      if Sized(dg) {
        InputFitted(n, EncodeAll(dg), regular, ackNoDelay, env);
      }
    case SendStep(buf) => SendMtu(n.k, buf);
    case RecvStep(capacity) => RecvMtu(n.k, capacity);
    case ReadStep(capacity) => RecvMtu(n.k, Max(capacity, PeekSize(n.k.rcvQueue)));
  }

  lemma SendMtu(k: Endpoint, buf: seq<byte>)
    ensures Send(k, buf).0.mtu == k.mtu
  {
  }

  lemma RecvMtu(k: Endpoint, capacity: nat)
    ensures Recv(k, capacity).k.mtu == k.mtu
  {
  }

  lemma {:induction false} RunFitted(s: Sys, moves: seq<Move>)
    requires Safe(s) && Fitted(s.a) && Fitted(s.b)
    ensures Fitted(Run(s, moves).a) && Fitted(Run(s, moves).b)
    decreases |moves|
  {
    hide Fitted, Safe, DoStep, Enabled;
    if moves != [] {
      SafeValid(s);
      NextSafe(s, moves[0]);
      StepFitted(s.a, moves[0].step);
      StepFitted(s.b, moves[0].step);
      RunFitted(Next(s, moves[0]), moves[1..]);
    }
  }

  lemma SafeValid(s: Sys)
    requires Safe(s)
    ensures Valid(s.a.k) && Valid(s.b.k)
  {
  }

  lemma FinalFitted(conv: u32, ca: Config, cb: Config, moves: seq<Move>)
    requires Supported(ca) && Supported(cb)
    ensures var s := Final(conv, ca, cb, moves);
            Fitted(s.a) && Fitted(s.b) && s.a.k.mtu == ca.mtu && s.b.k.mtu == cb.mtu
  {
    hide Safe, Run;
    var s := Sys(KcpRuns.Start(conv, ca), KcpRuns.Start(conv, cb));
    StartSafe(conv, ca, cb);
    RunFitted(s, moves);
    RunMtu(s, moves);
  }

  lemma StepMtu(n: Node, step: Step)
    ensures DoStep(n, step).k.mtu == n.k.mtu
  {
    hide Flush, Input, EncodeAll, Send, Recv, PeekSize, MessageLength, Accepted;
    match step
    case FlushStep(ackOnly, env) => FlushFrame(n.k, ackOnly, env);
    case InputStep(dg, regular, ackNoDelay, env) =>
      if Sized(dg) {
        InputFrame(n.k, EncodeAll(dg), regular, ackNoDelay, env);
      }
    case SendStep(buf) => SendMtu(n.k, buf);
    case RecvStep(capacity) => RecvMtu(n.k, capacity);
    case ReadStep(capacity) => RecvMtu(n.k, Max(capacity, PeekSize(n.k.rcvQueue)));
  }

  lemma {:induction false} RunMtu(s: Sys, moves: seq<Move>)
    ensures Run(s, moves).a.k.mtu == s.a.k.mtu && Run(s, moves).b.k.mtu == s.b.k.mtu
    decreases |moves|
  {
    hide DoStep, Enabled;
    if moves != [] {
      StepMtu(s.a, moves[0].step);
      StepMtu(s.b, moves[0].step);
      RunMtu(Next(s, moves[0]), moves[1..]);
    }
  }

  lemma OneSegment(k: Endpoint, buf: seq<byte>)
    requires k.sndQueue == [] && |buf| == k.Mss()
    ensures var (k', code) := Send(k, buf);
            && code == 0 && k' == k.(sndQueue := k'.sndQueue) && |k'.sndQueue| == 1
            && k'.sndQueue[0].data == buf && k'.sndQueue[0].xmit == 0 && !k'.sndQueue[0].acked
  {
    assert buf[0..] == buf && buf[..|buf|] == buf;
    assert Fragments(buf[|buf|..], k.Mss(), 0, k.stream) == [];
  }

  /** A full segment alone in the queue of a quiet endpoint leaves as a datagram of `mtu` bytes. */
  lemma FlushFull(k: Endpoint, env: Env) returns (dg: seq<Segment>)
    requires |k.sndQueue| == 1 && |k.sndQueue[0].data| == k.Mss() && k.sndQueue[0].xmit == 0 && !k.sndQueue[0].acked
    requires k.sndBuf == [] && k.acklist == [] && !k.askSend && !k.askTell && k.rmtWnd > 0 && env.cwnd > 0
    ensures dg in Flush(k, false, env).out && Sized(dg) && |EncodeAll(dg)| == k.mtu
    ensures Flush(k, false, env).k.sndQueue == []
  {
    hide TimeDiff, Wrap, Visit, Encode;
    assert Announced(k, env) == Packer([], []);
    var q := k.sndQueue;
    assert q[..1] == q && q[1..] == [];
    var seg := q[0].(conv := k.conv, cmd := CMD_PUSH, sn := k.sndNxt);
    assert Number(q, k.conv, k.sndNxt) == [seg];
    assert Refilled(k, env).sndBuf == [seg];
    var w := FlushPass(k, env);
    SweepOne(seg, w, env.clock(1), Packer([], []));
    dg := VisitFirst(seg, w, env.clock(1));
    assert Swept(k, env).1 == Packer([], dg);
    EncodeAllSize(dg);
    assert dg[1..] == [] && WireSize(dg) == k.mtu;
  }

  lemma VisitFirst(seg: Segment, w: Pass, current: u32) returns (dg: seq<Segment>)
    requires seg.xmit == 0 && !seg.acked && OVERHEAD + |seg.data| == w.mtu
    ensures Visit(seg, w, current, 2, Packer([], [])).p == Packer([], dg) && |dg| == 1 && dg[0].data == seg.data
  {
    hide TimeDiff, Wrap;
    dg := Visit(seg, w, current, 2, Packer([], [])).p.cur;
    assert [] + [dg[0]] == [dg[0]];
  }

  lemma SweepOne(seg: Segment, w: Pass, current: u32, p: Packer)
    ensures Sweep([seg], w, current, 2, p).1 == Visit(seg, w, current, 2, p).p
  {
  }

  /** A first message of `mss` bytes is flushed. */
  lemma FullDatagram(conv: u32, ca: Config, cb: Config) returns (moves: seq<Move>, dg: seq<Segment>)
    requires Supported(ca) && Supported(cb)
    ensures dg in Final(conv, ca, cb, moves).a.net && Sized(dg) && |EncodeAll(dg)| == ca.mtu
  {
    hide Send, Flush, EncodeAll;
    var s, env := Sys(KcpRuns.Start(conv, ca), KcpRuns.Start(conv, cb)), Env(_ => 0, 1, 0);
    var buf := Zeros(s.a.k.Mss());
    var send, flush := Move(true, SendStep(buf)), Move(true, FlushStep(false, env));
    OneSegment(s.a.k, buf);
    var s1 := Next(s, send);
    assert s1.a == DoSend(s.a, buf);
    dg := FlushFull(s1.a.k, env);
    moves := [send, flush];
    assert Enabled(s1.a, s1.b, flush.step);
    assert dg in Next(s1, flush).a.net;
    RunJoin(s, [send], [flush]);
    RunOne(s, send);
    RunOne(s1, flush);
    assert [send] + [flush] == moves;
  }

  /** Buffers of `size` bytes cut no datagram of any run exactly when `mtu` is at most that. */
  lemma NothingCut(conv: u32, ca: Config, cb: Config, size: nat)
    requires Supported(ca) && Supported(cb)
    ensures (forall moves, dg :: dg in Final(conv, ca, cb, moves).a.net ==>
               Sized(dg) && OVERHEAD <= |EncodeAll(dg)| <= size)
            <==> ca.mtu <= size
  {
    hide Final, EncodeAll;
    if ca.mtu <= size {
      forall moves, dg | dg in Final(conv, ca, cb, moves).a.net
        ensures Sized(dg) && OVERHEAD <= |EncodeAll(dg)| <= size
      {
        FinalFitted(conv, ca, cb, moves);
      }
    } else {
      var moves, dg := FullDatagram(conv, ca, cb);
    }
  }
}
