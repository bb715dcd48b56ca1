/** A message sent, flushed, delivered and received, over the network or again after a loss:
    that the steps the theorems allow are also enough. */
module KcpProgress {
  import opened Words
  import opened KcpWire
  import opened KcpSpec
  import opened KcpInvariant
  import opened KcpDatagram
  import opened KcpReceipt
  import opened KcpEmission
  import opened KcpSystem
  import R = KcpRuns

  /** A segment that carries the whole of a first message. */
  ghost predicate Carries(x: Segment, conv: u32, buf: seq<byte>) {
    x.conv == conv && x.cmd == CMD_PUSH && x.sn == 0 && x.frg == 0 && x.una == 0 && x.data == buf && x == OnWire(x)
  }

  /** The endpoint between its first `send` and its first flush. */
  ghost predicate Loaded(k: Endpoint, buf: seq<byte>) {
    && |k.sndQueue| == 1 && k.sndQueue[0] == BLANK.(data := buf)
    && k.sndBuf == [] && k.sndNxt == k.sndUna == k.rcvNxt == 0 && k.acklist == [] && !k.askSend && !k.askTell
    && k.rmtWnd > 0 && Valid(k)
  }

  lemma FirstSend(conv: u32, c: R.Config, buf: seq<byte>)
    requires R.Supported(c) && 0 < |buf| <= c.mtu - OVERHEAD
    ensures var (k, code) := Send(R.Start(conv, c).k, buf);
            code == 0 && Loaded(k, buf) && k == R.Start(conv, c).k.(sndQueue := k.sndQueue)
  {
    hide Valid, Send;
    var k := R.Start(conv, c).k;
    R.StartSane(conv, c);
    SendKeeps(k, buf);
    var pieces := SendIs(k, buf);
    assert buf[0..] == buf;
    OnePiece(pieces, buf, k.Mss(), k.stream);
    assert [] + pieces == pieces;
  }

  lemma OnePiece(pieces: seq<Segment>, buf: seq<byte>, mss: nat, stream: bool)
    requires CutInto(pieces, buf, mss, stream) && 0 < |buf| <= mss
    ensures |pieces| == 1 && pieces[0] == BLANK.(data := buf)
  {
    if |pieces| >= 2 {
      MoreThanOne(|pieces|, mss);
    }
    assert IsPiece(pieces, 0, buf, mss, stream);
    assert buf[0..|buf|] == buf;
  }

  /** One segment that is due is one datagram. */
  lemma OneDatagram(k: Endpoint, env: Env, seg: Segment)
    requires Valid(k) && Buffered(k, env.cwnd) == [seg] && seg.data != []
    requires Acks(k, |k.acklist|) == [] && Probes(k, env.clock(0)) == []
    requires Resends(seg, k.fastresend, Admits(k, env.cwnd) == 0, env.clock(1))
    ensures var o, rto := Flush(k, false, env), NewTimeout(seg, k.fastresend, Admits(k, env.cwnd) == 0, k.nodelay, env.rto);
            && |o.k.sndBuf| == 1 && o.out == [[OnWire(o.k.sndBuf[0])]]
            && o.k.sndBuf[0] == seg.(xmit := Wrap(seg.xmit + 1), ts := env.clock(2), wnd := Advert(k), una := k.rcvNxt,
                                     rto := rto, resendts := Wrap(env.clock(1) + rto),
                                     fastack := if seg.xmit == 0 then seg.fastack else 0)
            && o.k.sndQueue == k.sndQueue[Admits(k, env.cwnd)..]
  {
    hide Valid, Flush, Buffered, Acks, Probes, Resends, NewTimeout, Advert, Wrap;
    FlushSends(k, env);
    FlushFills(k, false, env);
    var o := Flush(k, false, env);
    assert Passed(k, [seg], o.k.sndBuf, 0, Admits(k, env.cwnd) == 0, env, env.clock(1), 2);
    XmitMoves(seg.xmit);
    assert Sent([seg], o.k.sndBuf, 1) == [OnWire(o.k.sndBuf[0])];
    Single(o.out, OnWire(o.k.sndBuf[0]), k.mtu);
  }

  lemma {:induction false} FlattenSize(out: seq<seq<Segment>>)
    requires forall i :: 0 <= i < |out| ==> out[i] != []
    ensures |Flatten(out)| >= |out|
  {
    if out != [] {
      FlattenSize(out[..|out| - 1]);
    }
  }

  lemma Single(out: seq<seq<Segment>>, x: Segment, mtu: int)
    requires Packed(out, mtu) && Flatten(out) == [x]
    ensures out == [[x]]
  {
    hide WireSize;
    FlattenSize(out);
    assert out == [out[0]] && out[..0] == [];
    assert Flatten(out) == Flatten([]) + out[0] == out[0];
  }

  /** The endpoint with its first message on the way and nothing else to say. */
  ghost predicate InFlight(k: Endpoint, seg: Segment, buf: seq<byte>) {
    && Valid(k) && k.sndBuf == [seg] && Carries(OnWire(seg), k.conv, buf) && !seg.acked
    && k.sndQueue == [] && k.sndUna == 0 && k.sndNxt == 1 && k.rcvNxt == 0
    && k.acklist == [] && !k.askSend && !k.askTell && k.rmtWnd > 0
  }

  lemma FirstFlush(k: Endpoint, buf: seq<byte>, env: Env)
    requires Loaded(k, buf) && buf != [] && env.cwnd > 0
    ensures var o := Flush(k, false, env);
            && |o.k.sndBuf| == 1 && o.out == [[OnWire(o.k.sndBuf[0])]] && InFlight(o.k, o.k.sndBuf[0], buf)
            && o.k.sndBuf[0].xmit == 1 && o.k.sndBuf[0].resendts == Wrap(env.clock(1) + env.rto)
            && o.k == k.(sndBuf := o.k.sndBuf, sndQueue := [], sndNxt := 1, tsProbe := 0, probeWait := 0)
  {
    hide Valid, Flush, TimeDiff, Advert, Wrap, AllPassed, Buffered, Admits, Acks, Probes, Resends, NewTimeout, Sent,
         Flatten;
    WrapSmall(1);
    FlushKeeps(k, false, env);
    FlushFrames(k, env);
    FlushSends(k, env);
    ProbeTimer(k, env);
    FirstBuffered(k, buf, env);
    OneDatagram(k, env, k.sndQueue[0].(conv := k.conv, cmd := CMD_PUSH, sn := 0));
    assert Flush(k, false, env).k.sndBuf == [Flush(k, false, env).k.sndBuf[0]];
  }

  lemma FirstBuffered(k: Endpoint, buf: seq<byte>, env: Env)
    requires Loaded(k, buf) && env.cwnd > 0
    ensures var seg := k.sndQueue[0].(conv := k.conv, cmd := CMD_PUSH, sn := 0);
            && Buffered(k, env.cwnd) == [seg] && Admits(k, env.cwnd) == 1
            && Acks(k, |k.acklist|) == [] && Probes(k, env.clock(0)) == []
            && Resends(seg, k.fastresend, false, env.clock(1))
            && NewTimeout(seg, k.fastresend, false, k.nodelay, env.rto) == env.rto
  {
    hide Valid, TimeDiff, Advert, Wrap;
    WrapSmall(0);
  }

  /** Once its timer has run out the segment goes out again. */
  lemma SecondFlush(k: Endpoint, seg: Segment, buf: seq<byte>, env: Env)
    requires InFlight(k, seg, buf) && buf != [] && TimeDiff(env.clock(1), seg.resendts) >= 0
    ensures var o := Flush(k, false, env);
            && |o.k.sndBuf| == 1 && o.out == [[OnWire(o.k.sndBuf[0])]] && InFlight(o.k, o.k.sndBuf[0], buf)
            && o.k.sndBuf[0].xmit == Wrap(seg.xmit + 1) && o.k.conv == k.conv
  {
    hide Valid, Flush, TimeDiff, Advert, NewTimeout, Wrap;
    assert Buffered(k, env.cwnd) == [seg];
    WrapSmall(1);
    OneDatagram(k, env, seg);
    FlushKeeps(k, false, env);
    FlushFrames(k, env);
    FlushSends(k, env);
    assert Flush(k, false, env).k.sndBuf == [Flush(k, false, env).k.sndBuf[0]];
  }

  /** What a fresh peer makes of it: the message is queued, whatever answer goes out. */
  lemma FirstInput(conv: u32, c: R.Config, x: Segment, buf: seq<byte>, mss: int, ackNoDelay: bool, env: Env)
    requires R.Supported(c) && Carries(x, conv, buf) && |buf| <= mss < TWO32
    ensures Sized([x])
    ensures var k := R.Start(conv, c).k; var o := Input(k, EncodeAll([x]), true, ackNoDelay, env);
            && o.code == 0 && o.k.rcvQueue == [x] && o.k.rcvNxt == 1 && o.k.conv == conv
            && o.k.acklist == (if ackNoDelay then [] else [(0, x.ts)])
  {
    hide Process, Flush, Advert, EncodeAll, Valid;
    var k := R.Start(conv, c).k;
    R.StartSane(conv, c);
    FirstTaken(k, x);
    ProcessFrames(k, x, true);
    InputAnswers(k, [x], [], mss, true, ackNoDelay, env);
    assert EncodeAll([x]) + [] == EncodeAll([x]);
    var k' := Process(k, x, true);
    assert ProcessAll(k, [x], true, false) == ProcessAll(k', [], true, Slides(k, x.una)) == Parsed(k', false, 0);
    AckFlushSends(k', env);
  }

  lemma OffsetNone()
    ensures Offset(0, 0) == 0
  {
  }

  lemma ValidQueue(k: Endpoint)
    requires Valid(k)
    ensures |k.rcvQueue| < TWO31
  {
  }

  lemma FirstTaken(k: Endpoint, x: Segment)
    requires Valid(k) && k.rcvQueue == k.rcvBuf == [] && k.rcvNxt == 0 && k.acklist == [] && x.cmd == CMD_PUSH && x.sn == 0
    ensures var k' := Process(k, x, true);
            k'.rcvQueue == [x] && k'.rcvNxt == 1 && k'.acklist == [(0, x.ts)] && k'.rcvWnd == k.rcvWnd
  {
    hide Process, Settled, Windowed, Valid, Wrap;
    WrapSmall(0);
    WrapSmall(1);
    OffsetNone();
    PushTaken(k, x, true);
    ProcessFrames(k, x, true);
    var k' := Process(k, x, true);
    var q := k'.rcvQueue;
    assert q[0..] == q;
    ProcessKeeps(k, x, true);
    ValidQueue(k');
    forall i | 0 <= i < |q| ensures q[i] == x && q[i].sn == i {
      assert q[i] in q;
      WrapSmall(i);
    }
    assert |q| <= 1 || q[1].sn == 1;
  }

  // ---- Runs ----

  /** `recv` on a queue with one message. */
  lemma FirstRecv(k: Endpoint, x: Segment, capacity: nat)
    requires Valid(k) && k.rcvQueue == [x] && x.frg == 0 && |x.data| <= capacity && |x.data| < TWO31
    ensures Recv(k, capacity).code == |x.data| && Recv(k, capacity).data == x.data
  {
    hide Valid, Recv;
    assert [x][..1] == [x];
    assert Bytes([x]) == x.data + Bytes([]);
    RecvTakes(k, 1, capacity);
  }

  /** The first message of a session, of up to one segment: sent and flushed at one side, and
      the datagram delivered to the other, `recv` there returns it. */
  lemma MessageArrives(conv: u32, ca: R.Config, cb: R.Config, buf: seq<byte>, env: Env, ackNoDelay: bool, env': Env,
                       capacity: nat)
    returns (dg: seq<Segment>)
    requires R.Supported(ca) && R.Supported(cb)
    requires 0 < |buf| <= ca.mtu - OVERHEAD && |buf| < TWO31 && |buf| <= capacity && env.cwnd > 0
    ensures var s := R.Final(conv, ca, cb, [Move(true, SendStep(buf)), Move(true, FlushStep(false, env)),
                                            Move(false, InputStep(dg, true, ackNoDelay, env')),
                                            Move(false, RecvStep(capacity))]);
            s.a.msgs == [buf] && s.b.got == [buf] && s.b.out == buf
  {
    hide Send, Flush, Input, Recv, EncodeAll, Valid, Carries, Frags;
    var s := Sys(R.Start(conv, ca), R.Start(conv, cb));
    FirstSend(conv, ca, buf);
    var s1 := SentFirst(s, conv, ca, buf);
    FirstFlush(s1.a.k, buf, env);
    dg := [OnWire(Flush(s1.a.k, false, env).k.sndBuf[0])];
    var s2 := Flushed(s1, env, dg);
    assert Carries(dg[0], conv, buf);
    var s3 := Delivered(s2, conv, ca, cb, dg[0], buf, ackNoDelay, env');
    var s4 := Heard(s3, dg[0], buf, capacity);
    FourMoves(s, s1, s2, s3, s4, Move(true, SendStep(buf)), Move(true, FlushStep(false, env)),
              Move(false, InputStep(dg, true, ackNoDelay, env')), Move(false, RecvStep(capacity)));
  }

  lemma FourMoves(s: Sys, s1: Sys, s2: Sys, s3: Sys, s4: Sys, a: Move, b: Move, c: Move, d: Move)
    requires s1 == Next(s, a) && s2 == Next(s1, b) && s3 == Next(s2, c) && s4 == Next(s3, d)
    ensures R.Run(s, [a, b, c, d]) == s4
  {
    hide Next;
    assert [a, b, c, d][1..] == [b, c, d] && [b, c, d][1..] == [c, d] && [c, d][1..] == [d] && [d][1..] == [];
    assert R.Run(s4, []) == s4;
    assert R.Run(s3, [d]) == s4;
    assert R.Run(s2, [c, d]) == s4;
    assert R.Run(s1, [b, c, d]) == s4;
  }

  lemma SentFirst(s: Sys, conv: u32, ca: R.Config, buf: seq<byte>) returns (s1: Sys)
    requires R.Supported(ca) && s.a == R.Start(conv, ca) && 0 < |buf| <= ca.mtu - OVERHEAD
    ensures s1 == Next(s, Move(true, SendStep(buf))) && s1.b == s.b
    ensures Loaded(s1.a.k, buf) && s1.a.k.conv == conv && s1.a.hist == [] && s1.a.msgs == [buf]
  {
    hide Send, Loaded;
    FirstSend(conv, ca, buf);
    s1 := Next(s, Move(true, SendStep(buf)));
    assert s1.a == DoSend(s.a, buf);
  }

  lemma Flushed(s: Sys, env: Env, dg: seq<Segment>) returns (s': Sys)
    requires |s.a.hist| + |s.a.k.sndQueue| <= LIMIT && dg in Flush(s.a.k, false, env).out
    ensures s' == Next(s, Move(true, FlushStep(false, env))) && s'.b == s.b && dg in s'.a.net
    ensures s'.a.k == Flush(s.a.k, false, env).k && s'.a.msgs == s.a.msgs
    ensures |s'.a.hist| + |s'.a.k.sndQueue| <= LIMIT
  {
    hide Flush;
    var m := QueueShrinks(s.a.k, env);
    s' := Next(s, Move(true, FlushStep(false, env)));
  }

  lemma QueueShrinks(k: Endpoint, env: Env) returns (m: nat)
    ensures m <= |k.sndQueue| && Flush(k, false, env).k.sndQueue == k.sndQueue[m..]
  {
    hide Flush;
    FlushSends(k, env);
    m := Admits(k, env.cwnd);
  }

  lemma Delivered(s: Sys, conv: u32, ca: R.Config, cb: R.Config, x: Segment, buf: seq<byte>, ackNoDelay: bool, env: Env)
    returns (s': Sys)
    requires R.Supported(cb) && s.b == R.Start(conv, cb) && [x] in s.a.net
    requires Carries(x, conv, buf) && |buf| <= ca.mtu - OVERHEAD
    ensures s' == Next(s, Move(false, InputStep([x], true, ackNoDelay, env))) && s'.a == s.a
    ensures x.frg == 0 && x.data == buf && s'.b.k.conv == conv
    ensures s'.b.k.rcvQueue == [x] && Valid(s'.b.k) && s'.b.got == [] && s'.b.out == [] && s'.b.pending == [] && s'.b.hist == []
  {
    hide Input, EncodeAll, Valid;
    R.StartSane(conv, cb);
    FirstInput(conv, cb, x, buf, ca.mtu - OVERHEAD, ackNoDelay, env);
    InputKeeps(s.b.k, EncodeAll([x]), true, ackNoDelay, env);
    s' := Next(s, Move(false, InputStep([x], true, ackNoDelay, env)));
  }

  lemma Heard(s: Sys, x: Segment, buf: seq<byte>, capacity: nat) returns (s': Sys)
    requires s.b.k.rcvQueue == [x] && Valid(s.b.k) && s.b.got == [] && s.b.out == [] && s.b.pending == [] && s.b.hist == []
    requires x.frg == 0 && x.data == buf && |buf| <= capacity && |buf| < TWO31
    ensures s' == Next(s, Move(false, RecvStep(capacity))) && s'.a == s.a
    ensures s'.b.got == [buf] && s'.b.out == buf
  {
    hide Recv, Valid;
    FirstRecv(s.b.k, x, capacity);
    s' := Next(s, Move(false, RecvStep(capacity)));
  }

  /** The same with the first datagram lost: a flush after the timeout is enough. */
  lemma LossRecovers(conv: u32, ca: R.Config, cb: R.Config, buf: seq<byte>, env: Env, again: Env, ackNoDelay: bool,
                     env': Env, capacity: nat)
    returns (dg: seq<Segment>)
    requires R.Supported(ca) && R.Supported(cb)
    requires 0 < |buf| <= ca.mtu - OVERHEAD && |buf| < TWO31 && |buf| <= capacity && env.cwnd > 0
    requires TimeDiff(again.clock(1), Wrap(env.clock(1) + env.rto)) >= 0
    ensures var s := R.Final(conv, ca, cb, [Move(true, SendStep(buf)), Move(true, FlushStep(false, env)),
                                            Move(true, FlushStep(false, again)),
                                            Move(false, InputStep(dg, true, ackNoDelay, env')),
                                            Move(false, RecvStep(capacity))]);
            s.a.msgs == [buf] && s.b.got == [buf] && s.b.out == buf
  {
    hide Send, Flush, Input, Recv, EncodeAll, Valid, Carries, Frags, TimeDiff, Wrap;
    var s := Sys(R.Start(conv, ca), R.Start(conv, cb));
    FirstSend(conv, ca, buf);
    var s1 := SentFirst(s, conv, ca, buf);
    FirstFlush(s1.a.k, buf, env);
    var seg := Flush(s1.a.k, false, env).k.sndBuf[0];
    var s2 := Flushed(s1, env, [OnWire(seg)]);
    SecondFlush(s2.a.k, seg, buf, again);
    dg := [OnWire(Flush(s2.a.k, false, again).k.sndBuf[0])];
    var s3 := Flushed(s2, again, dg);
    var s4 := Delivered(s3, conv, ca, cb, dg[0], buf, ackNoDelay, env');
    var s5 := Heard(s4, dg[0], buf, capacity);
    FiveMoves(s, s1, s2, s3, s4, s5, Move(true, SendStep(buf)), Move(true, FlushStep(false, env)),
              Move(true, FlushStep(false, again)), Move(false, InputStep(dg, true, ackNoDelay, env')),
              Move(false, RecvStep(capacity)));
  }

  lemma FiveMoves(s: Sys, s1: Sys, s2: Sys, s3: Sys, s4: Sys, s5: Sys, a: Move, b: Move, c: Move, d: Move, e: Move)
    requires s1 == Next(s, a) && s2 == Next(s1, b) && s3 == Next(s2, c) && s4 == Next(s3, d) && s5 == Next(s4, e)
    ensures R.Run(s, [a, b, c, d, e]) == s5
  {
    hide Next;
    FourMoves(s1, s2, s3, s4, s5, b, c, d, e);
    assert [a, b, c, d, e][1..] == [b, c, d, e];
  }

  /** The acknowledgement of the peer, delivered, releases the segment. */
  lemma AckReleases(conv: u32, ca: R.Config, cb: R.Config, buf: seq<byte>, env: Env, env1: Env, env2: Env, env3: Env)
    returns (dg: seq<Segment>, ack: seq<Segment>)
    requires R.Supported(ca) && R.Supported(cb)
    requires 0 < |buf| <= ca.mtu - OVERHEAD && env.cwnd > 0
    ensures var s := R.Final(conv, ca, cb, [Move(true, SendStep(buf)), Move(true, FlushStep(false, env)),
                                            Move(false, InputStep(dg, true, false, env1)),
                                            Move(false, FlushStep(true, env2)),
                                            Move(true, InputStep(ack, true, false, env3))]);
            s.a.msgs == [buf] && s.a.k.sndBuf == [] && s.a.k.sndUna == s.a.k.sndNxt == 1
  {
    hide Send, Flush, Input, EncodeAll, Valid, Carries, Frags, TimeDiff, Wrap, AckOf;
    var s := Sys(R.Start(conv, ca), R.Start(conv, cb));
    FirstSend(conv, ca, buf);
    var s1 := SentFirst(s, conv, ca, buf);
    FirstFlush(s1.a.k, buf, env);
    var seg := Flush(s1.a.k, false, env).k.sndBuf[0];
    dg := [OnWire(seg)];
    var s2 := Flushed(s1, env, dg);
    var s3 := Delivered(s2, conv, ca, cb, dg[0], buf, false, env1);
    FirstInput(conv, cb, dg[0], buf, ca.mtu - OVERHEAD, false, env1);
    FirstAck(s3.b.k, dg[0].ts, env2);
    ack := [AckOf(s3.b.k, (0, dg[0].ts))];
    var s4 := Next(s3, Move(false, FlushStep(true, env2)));
    assert ack in s4.b.net;
    var s5 := AckDelivered(s4, seg, buf, ack[0], env3);
    FiveMoves(s, s1, s2, s3, s4, s5, Move(true, SendStep(buf)), Move(true, FlushStep(false, env)),
              Move(false, InputStep(dg, true, false, env1)), Move(false, FlushStep(true, env2)),
              Move(true, InputStep(ack, true, false, env3)));
  }

  lemma FirstAck(k: Endpoint, ts: u32, env: Env)
    requires Valid(k) && k.acklist == [(0, ts)] && k.rcvNxt == 1
    ensures var o := Flush(k, true, env); o.out == [[AckOf(k, (0, ts))]] && o.k == k.(acklist := [])
    ensures AckOf(k, (0, ts)).cmd == CMD_ACK && AckOf(k, (0, ts)).sn == 0 && AckOf(k, (0, ts)).una == 1
    ensures Parsable(AckOf(k, (0, ts)), k.conv, 0)
  {
    hide Valid, Flush, Advert, TimeDiff;
    AckFlushSends(k, env);
    FlushFills(k, true, env);
    assert Acks(k, 0) == [] && Acks(k, 1) == [] + [AckOf(k, (0, ts))];
    Single(Flush(k, true, env).out, AckOf(k, (0, ts)), k.mtu);
  }

  lemma AckDelivered(s: Sys, seg: Segment, buf: seq<byte>, ack: Segment, env: Env) returns (s': Sys)
    requires InFlight(s.a.k, seg, buf) && [ack] in s.b.net && |s.a.hist| + |s.a.k.sndQueue| <= LIMIT
    requires ack.cmd == CMD_ACK && ack.una == 1 && Parsable(ack, s.a.k.conv, 0)
    ensures s' == Next(s, Move(true, InputStep([ack], true, false, env))) && s'.a.msgs == s.a.msgs
    ensures s'.a.k.sndBuf == [] && s'.a.k.sndUna == s'.a.k.sndNxt == 1
  {
    hide Process, Flush, EncodeAll, Valid, Input, Carries, Wrap, Frags;
    var k := s.a.k;
    InputAnswers(k, [ack], [], 0, true, false, env);
    assert EncodeAll([ack]) + [] == EncodeAll([ack]);
    ReleasesOne(k, seg, ack);
    var k' := Process(k, ack, true);
    assert ProcessAll(k, [ack], true, false) == ProcessAll(k', [], true, Slides(k, 1)) == Parsed(k', Slides(k, 1), 0);
    SlidesIsRelease(k, 1);
    FlushSends(k', env);
    FlushFrames(k', env);
    WrapSmall(1);
    assert Buffered(k', env.cwnd) == [];
    s' := Next(s, Move(true, InputStep([ack], true, false, env)));
  }

  lemma ReleasesOne(k: Endpoint, seg: Segment, ack: Segment)
    requires Valid(k) && k.sndBuf == [seg] && k.sndQueue == [] && k.sndUna == 0 && k.sndNxt == 1
    requires ack.cmd == CMD_ACK && ack.una == 1
    ensures Released(k, 1) == 1
    ensures var k' := Process(k, ack, true);
            k'.sndBuf == [] && k'.sndUna == k'.sndNxt == 1 && k'.sndQueue == []
  {
    hide Process, Valid;
    AckTaken(k, ack, true);
  }
}
