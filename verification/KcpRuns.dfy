/** The guarantees of two KCP endpoints over any run, from their fresh states. */
module KcpRuns {
  import opened Words
  import opened KcpWire
  import opened KcpSpec
  import opened KcpInvariant
  import opened KcpDatagram
  import opened KcpSystem
  import opened KcpDelivery
  import opened KcpFlush
  import opened KcpTheorems
  import opened KcpMessages

  /** Settings made before the first call: `set_mtu`, `wnd_size`, `nodelay`, `set_stream`. */
  datatype Config = Config(stream: bool, mtu: mtu32, sndWnd: wnd32, rcvWnd: wnd32, fastresend: int, nodelay: u32)

  predicate Supported(c: Config) {
    32 <= c.rcvWnd <= 65535
  }

  function Start(conv: u32, c: Config): Node {
    Node(New(conv).(stream := c.stream, mtu := c.mtu, sndWnd := c.sndWnd, rcvWnd := c.rcvWnd,
                    fastresend := c.fastresend, nodelay := c.nodelay),
         [], {}, [], [], [], [], [], [])
  }

  function Run(s: Sys, moves: seq<Move>): Sys
    decreases |moves|
  {
    if moves == [] then s else Run(Next(s, moves[0]), moves[1..])
  }

  function Final(conv: u32, ca: Config, cb: Config, moves: seq<Move>): Sys {
    Run(Sys(Start(conv, ca), Start(conv, cb)), moves)
  }

  ghost predicate Safe(s: Sys) {
    Inv(s) && Conversed(s.a, s.b) && Conversed(s.b, s.a)
  }

  lemma StartSane(conv: u32, c: Config)
    requires Supported(c)
    ensures Sane(Start(conv, c)) && Spoken(Start(conv, c)) && Heard(Start(conv, c))
  {
  }

  lemma StartLink(conv: u32, ca: Config, cb: Config)
    requires Supported(ca) && Supported(cb)
    ensures Link(Start(conv, ca), Start(conv, cb)) && Conversed(Start(conv, ca), Start(conv, cb))
  {
  }

  lemma StartSafe(conv: u32, ca: Config, cb: Config)
    requires Supported(ca) && Supported(cb)
    ensures Safe(Sys(Start(conv, ca), Start(conv, cb)))
  {
    hide Sane, Spoken, Heard, Link, Conversed;
    StartSane(conv, ca);
    StartSane(conv, cb);
    StartLink(conv, ca, cb);
    StartLink(conv, cb, ca);
  }

  // ---- Message bookkeeping through a step of either side ----

  lemma FlushFrame(k: Endpoint, ackOnly: bool, env: Env)
    ensures Flush(k, ackOnly, env).k.mtu == k.mtu && Flush(k, ackOnly, env).k.stream == k.stream
  {
    RefilledIs(k, env);
  }

  lemma {:induction false} InputLoopFrame(k: Endpoint, data: seq<byte>, regular: bool, slides: bool)
    ensures var k' := InputLoop(k, data, regular, slides).k; k'.mtu == k.mtu && k'.stream == k.stream
    decreases |data|
  {
    if |data| >= OVERHEAD {
      var head, rest, n := HeadOf(data), data[OVERHEAD..], LengthOf(data);
      if head.conv == k.conv && |rest| >= n && KnownCommand(head.cmd) {
        var seg := head.(data := rest[..n]);
        ProcessFrame(k, seg, regular);
        InputLoopFrame(Process(k, seg, regular), rest[n..], regular, slides || Slides(k, head.una));
      }
    }
  }

  lemma InputFrame(k: Endpoint, data: seq<byte>, regular: bool, ackNoDelay: bool, env: Env)
    ensures var k' := Input(k, data, regular, ackNoDelay, env).k; k'.mtu == k.mtu && k'.stream == k.stream
  {
    if |data| >= OVERHEAD {
      var r := InputLoop(k, data, regular, false);
      InputLoopFrame(k, data, regular, false);
      FlushFrame(r.k, true, env);
      FlushFrame(r.k, false, env);
    }
  }

  lemma RecvFrames(n: Node, capacity: nat)
    ensures var n' := DoRecv(n, capacity);
            n'.k.mtu == n.k.mtu && n'.k.stream == n.k.stream && n'.k.sndQueue == n.k.sndQueue
            && n'.hist == n.hist && n'.msgs == n.msgs
  {
  }

  /** The step of `n` keeps what `n` and `p` have conversed, in both directions. */
  lemma StepConverses(n: Node, p: Node, step: Step)
    requires Pair(n, p) && Enabled(n, p, step) && Conversed(n, p) && Conversed(p, n)
    ensures Conversed(DoStep(n, step), p) && Conversed(p, DoStep(n, step))
  {
    hide Pair, Said, Flush, Input;
    match step
    case SendStep(buf) =>
      SendSays(n, p, buf);
      assert Conversed(p, DoSend(n, buf));
    case FlushStep(ackOnly, env) =>
      var m := FlushQueue(n.k, ackOnly, env);
      FlushFrame(n.k, ackOnly, env);
      EmitSays(n, p, Flush(n.k, ackOnly, env), m);
    case InputStep(dg, regular, ackNoDelay, env) =>
      if Sized(dg) {
        var m := InputQueue(n, p, dg, regular, ackNoDelay, env);
        InputFrame(n.k, EncodeAll(dg), regular, ackNoDelay, env);
        EmitSays(n, p, Input(n.k, EncodeAll(dg), regular, ackNoDelay, env), m);
      }
    case RecvStep(_) =>
      TakingConverses(n, p, step);
    case ReadStep(_) =>
      TakingConverses(n, p, step);
  }

  /** What the reader has been given and what is pending of it is not part of the conversation. */
  lemma TakingConverses(n: Node, p: Node, step: Step)
    requires Pair(n, p) && Conversed(n, p) && Conversed(p, n) && (step.RecvStep? || step.ReadStep?)
    ensures Conversed(DoStep(n, step), p) && Conversed(p, DoStep(n, step))
  {
    hide Pair, Flush, Input, PeekSize, Recv, DoRecv, AllSendable, Image;
    RecvConverses(n, p, if step.RecvStep? then step.capacity else Max(step.capacity, PeekSize(n.k.rcvQueue)));
  }

  lemma RecvConverses(n: Node, p: Node, capacity: nat)
    requires Pair(n, p) && Conversed(n, p) && Conversed(p, n)
    ensures Conversed(DoRecv(n, capacity), p) && Conversed(p, DoRecv(n, capacity))
  {
    assert Stored(n, p.hist);
    hide Pair;
    RecvListens(p, n, capacity);
    RecvFrames(n, capacity);
    hide DoRecv, AllSendable, Image;
  }

  lemma NextSafe(s: Sys, m: Move)
    requires Safe(s)
    ensures Safe(Next(s, m))
  {
    NextInv(s, m);
    if m.left && Enabled(s.a, s.b, m.step) {
      StepConverses(s.a, s.b, m.step);
    } else if !m.left && Enabled(s.b, s.a, m.step) {
      StepConverses(s.b, s.a, m.step);
    }
  }

  lemma {:induction false} RunSafe(s: Sys, moves: seq<Move>)
    requires Safe(s)
    ensures Safe(Run(s, moves))
    decreases |moves|
  {
    if moves != [] {
      NextSafe(s, moves[0]);
      RunSafe(Next(s, moves[0]), moves[1..]);
    }
  }

  // ---- Main theorems ----

  lemma FinalSafe(conv: u32, ca: Config, cb: Config, moves: seq<Move>)
    requires Supported(ca) && Supported(cb)
    ensures Safe(Final(conv, ca, cb, moves))
  {
    hide Safe;
    StartSafe(conv, ca, cb);
    RunSafe(Sys(Start(conv, ca), Start(conv, cb)), moves);
  }

  lemma FlatPrefix(a: seq<Frag>, b: seq<Frag>)
    requires a <= b
    ensures Flat(a) <= Flat(b)
  {
    assert b == a + b[|a|..];
    FlatAppend(a, b[|a|..]);
  }

  lemma ReadsPrefix(n: Node, p: Node)
    requires Stored(p, n.hist) && Spoken(n) && Heard(p)
    ensures Concat(p.got) <= n.sent && p.out <= n.sent
  {
    assert p.read <= n.hist[..p.k.rcvNxt] <= Line(n);
    FlatPrefix(p.read, Line(n));
  }

  /** In-order delivery: what either side's reader gets is a prefix of what the other
      side's `send` accepted. */
  lemma PrefixDelivery(conv: u32, ca: Config, cb: Config, moves: seq<Move>)
    requires Supported(ca) && Supported(cb)
    ensures var s := Final(conv, ca, cb, moves);
            && Concat(s.b.got) <= s.a.sent && s.b.out <= s.a.sent
            && Concat(s.a.got) <= s.b.sent && s.a.out <= s.b.sent
  {
    hide Final, Sane, Conversed, Stored, Spoken, Heard;
    FinalSafe(conv, ca, cb, moves);
    var s := Final(conv, ca, cb, moves);
    ReadsPrefix(s.a, s.b);
    ReadsPrefix(s.b, s.a);
  }

  /** Message mode: each successful `recv` returns exactly one message, in sending order. */
  lemma MessageDelivery(conv: u32, ca: Config, cb: Config, moves: seq<Move>)
    requires Supported(ca) && Supported(cb)
    ensures var s := Final(conv, ca, cb, moves);
            && (!s.a.k.stream ==> s.b.got <= s.a.msgs)
            && (!s.b.k.stream ==> s.a.got <= s.b.msgs)
  {
    hide Final, Inv, Said;
    FinalSafe(conv, ca, cb, moves);
  }

  /** `sn` is delivered, waiting at the receiver, or still buffered unacknowledged at the
      sender with its data intact. */
  ghost predicate Accounted(n: Node, p: Node, sn: u32)
    requires sn < |n.hist|
  {
    || Kept(p.k, sn)
    || exists seg :: seg in n.k.sndBuf && seg.sn == sn && !seg.acked && FragOf(seg) == n.hist[sn]
  }

  lemma PairAccounts(n: Node, p: Node, sn: u32)
    requires Booked(n) && Link(n, p) && sn < |n.hist|
    ensures Accounted(n, p, sn)
  {
    hide Stored;
    if sn >= n.k.sndUna {
      var i := sn - n.k.sndUna;
      assert n.k.sndBuf[i] in n.k.sndBuf && n.k.sndBuf[i].sn == sn;
      assert n.k.sndBuf[i].acked ==> Kept(p.k, n.k.sndBuf[i].sn);
    }
  }

  /** No segment is released early. */
  lemma NoEarlyRelease(conv: u32, ca: Config, cb: Config, moves: seq<Move>)
    requires Supported(ca) && Supported(cb)
    ensures var s := Final(conv, ca, cb, moves);
            && (forall sn: u32 :: sn < |s.a.hist| ==> Accounted(s.a, s.b, sn))
            && (forall sn: u32 :: sn < |s.b.hist| ==> Accounted(s.b, s.a, sn))
  {
    hide Final, Conversed, Link, Valid, Booked, NetLegit, AcksKept, Accounted, Spoken, Heard;
    FinalSafe(conv, ca, cb, moves);
    var s := Final(conv, ca, cb, moves);
    forall sn: u32 | sn < |s.a.hist| ensures Accounted(s.a, s.b, sn) {
      PairAccounts(s.a, s.b, sn);
    }
    forall sn: u32 | sn < |s.b.hist| ensures Accounted(s.b, s.a, sn) {
      PairAccounts(s.b, s.a, sn);
    }
  }

  /** The sender never overruns the receiver, however stale the windows it saw. */
  lemma NoOverrun(conv: u32, ca: Config, cb: Config, moves: seq<Move>)
    requires Supported(ca) && Supported(cb)
    ensures var s := Final(conv, ca, cb, moves);
            && s.a.k.sndUna <= s.b.k.rcvNxt <= s.a.k.sndNxt <= s.b.k.rcvNxt + s.b.k.rcvWnd
            && s.b.k.sndUna <= s.a.k.rcvNxt <= s.b.k.sndNxt <= s.a.k.rcvNxt + s.a.k.rcvWnd
  {
    hide Final, Sane, Conversed, Stored, Spoken, Heard;
    FinalSafe(conv, ca, cb, moves);
  }

  lemma NetParses(n: Node, p: Node, dg: seq<Segment>, regular: bool, ackNoDelay: bool, env: Env)
    requires NetLegit(n) && dg in n.net && p.k.conv == n.k.conv
    ensures Sized(dg) && Input(p.k, EncodeAll(dg), regular, ackNoDelay, env).code == 0
  {
    assert forall i :: 0 <= i < |dg| ==> Legit(n, dg[i]);
    InputLoopParses(p.k, dg, n.k.Mss(), regular, false);
    EncodeAllSize(dg);
  }

  /** No datagram in flight is ever refused by the endpoint it was meant for: `input`
      returns 0. */
  lemma NothingRefused(conv: u32, ca: Config, cb: Config, moves: seq<Move>, dg: seq<Segment>, regular: bool,
                       ackNoDelay: bool, env: Env)
    requires Supported(ca) && Supported(cb)
    ensures var s := Final(conv, ca, cb, moves);
            && (dg in s.a.net ==> Sized(dg) && Input(s.b.k, EncodeAll(dg), regular, ackNoDelay, env).code == 0)
            && (dg in s.b.net ==> Sized(dg) && Input(s.a.k, EncodeAll(dg), regular, ackNoDelay, env).code == 0)
  {
    hide Final, Conversed, Link, Valid, Booked, NetLegit, AcksKept, Spoken, Heard, Input;
    FinalSafe(conv, ca, cb, moves);
    var s := Final(conv, ca, cb, moves);
    if dg in s.a.net {
      NetParses(s.a, s.b, dg, regular, ackNoDelay, env);
    }
    if dg in s.b.net {
      NetParses(s.b, s.a, dg, regular, ackNoDelay, env);
    }
  }
}
