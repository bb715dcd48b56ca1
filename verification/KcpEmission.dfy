/** What `send` queues and what `flush` then puts on the wire: every segment of it, in order,
    and what becomes of each buffered segment, told by fields and clock readings. */
module KcpEmission {
  import opened Words
  import opened KcpWire
  import opened KcpSpec
  import opened KcpInvariant
  import opened KcpDatagram
  import opened KcpFlush

  // ---- Segments in the order in which they go out ----

  function Flatten(out: seq<seq<Segment>>): seq<Segment> {
    if out == [] then [] else Flatten(out[..|out| - 1]) + out[|out| - 1]
  }

  /** All that a packer holds. */
  function All(p: Packer): seq<Segment> {
    Flatten(p.out) + p.cur
  }

  lemma FlattenAppend(out: seq<seq<Segment>>, dg: seq<Segment>)
    ensures Flatten(out + [dg]) == Flatten(out) + dg
  {
    assert (out + [dg])[..|out|] == out;
  }

  lemma RoomKeeps(p: Packer, space: nat, mtu: nat)
    ensures All(Room(p, space, mtu)) == All(p)
  {
    FlattenAppend(p.out, p.cur);
    hide Flatten;
  }

  lemma AddAdds(p: Packer, seg: Segment)
    ensures All(Add(p, seg)) == All(p) + [seg]
  {
    hide Flatten;
  }

  lemma CloseKeeps(p: Packer)
    ensures Flatten(Close(p)) == All(p)
  {
    FlattenAppend(p.out, p.cur);
    hide Flatten;
  }

  // ---- Acknowledgements and probes ----

  /** The receive window a segment advertises: the room in the queue, as 16 bits. */
  function Advert(k: Endpoint): u16 {
    Max(0, k.rcvWnd - |k.rcvQueue|) % 0x1_0000
  }

  function AckOf(k: Endpoint, ack: (u32, u32)): Segment {
    Segment(k.conv, CMD_ACK, 0, Advert(k), ack.1, ack.0, k.rcvNxt, 0, 0, 0, 0, false, [])
  }

  /** The pending acknowledgements that are written: those `una` does not make superfluous,
      and the last one always. */
  function Acks(k: Endpoint, n: nat): seq<Segment>
    requires n <= |k.acklist|
  {
    if n == 0 then []
    else
      var ack := k.acklist[n - 1];
      Acks(k, n - 1) + (if TimeDiff(ack.0, k.rcvNxt) >= 0 || n == |k.acklist| then [AckOf(k, ack)] else [])
  }

  lemma {:induction false} PutAcksAll(k: Endpoint, i: nat, p: Packer)
    requires i <= |k.acklist| && All(p) == Acks(k, i)
    ensures All(PutAcks(k.acklist, i, Control(k), k.rcvNxt, k.mtu, p)) == Acks(k, |k.acklist|)
    decreases |k.acklist| - i
  {
    hide All, TimeDiff, Room;
    if i < |k.acklist| {
      var p1 := Room(p, OVERHEAD, k.mtu);
      RoomKeeps(p, OVERHEAD, k.mtu);
      var (sn, ts) := k.acklist[i];
      var seg := Control(k).(sn := sn, ts := ts);
      AckIs(k, i);
      AddAdds(p1, seg);
      var next := if TimeDiff(sn, k.rcvNxt) >= 0 || i == |k.acklist| - 1 then Add(p1, seg) else p1;
      assert Acks(k, i) + [] == Acks(k, i);
      PutAcksAll(k, i + 1, next);
    }
  }

  lemma AckIs(k: Endpoint, i: nat)
    requires i < |k.acklist|
    ensures Control(k).(sn := k.acklist[i].0, ts := k.acklist[i].1) == AckOf(k, k.acklist[i])
  {
    RoomIs(k);
  }

  lemma RoomIs(k: Endpoint)
    ensures Unused(k) == Advert(k)
  {
  }

  /** A window question goes out when one is pending or the probe timer has run out while the
      peer's window is closed; the answer when one was asked for. Both repeat number and
      timestamp of the last acknowledgement. */
  function Probes(k: Endpoint, now: u32): seq<Segment> {
    var last := if k.acklist == [] then (0, 0) else k.acklist[|k.acklist| - 1];
    (if k.askSend || (k.rmtWnd == 0 && k.probeWait != 0 && TimeDiff(now, k.tsProbe) >= 0)
     then [AckOf(k, last).(cmd := CMD_WASK)] else [])
    + (if k.askTell then [AckOf(k, last).(cmd := CMD_WINS)] else [])
  }

  lemma PutProbeAll(ask: bool, ctrl: Segment, mtu: nat, p: Packer)
    ensures All(PutProbe(ask, ctrl, mtu, p)) == All(p) + (if ask then [ctrl] else [])
  {
    hide All, Room;
    RoomKeeps(p, OVERHEAD, mtu);
    AddAdds(Room(p, OVERHEAD, mtu), ctrl);
  }

  lemma AnnouncedAll(k: Endpoint, env: Env)
    ensures All(AckPacker(k)) == Acks(k, |k.acklist|)
    ensures All(Announced(k, env)) == Acks(k, |k.acklist|) + Probes(k, env.clock(0))
  {
    hide All, PutAcks, PutProbe, TimeDiff, Acks;
    NothingPacked(k);
    PutAcksAll(k, 0, Packer([], []));
    RoomIs(k);
    var k1 := Probe(k, env.clock(0));
    var wask, wins := AfterAcks(k).(cmd := CMD_WASK), AfterAcks(k).(cmd := CMD_WINS);
    PutProbeAll(k1.askSend, wask, k.mtu, AckPacker(k));
    PutProbeAll(k1.askTell, wins, k.mtu, PutProbe(k1.askSend, wask, k.mtu, AckPacker(k)));
    var acks := Acks(k, |k.acklist|);
    var w: seq<Segment> := if k1.askSend then [wask] else [];
    var t: seq<Segment> := if k1.askTell then [wins] else [];
    assert acks + w + t == acks + (w + t);
    assert Probes(k, env.clock(0)) == w + t;
  }

  lemma NothingPacked(k: Endpoint)
    ensures All(Packer([], [])) == Acks(k, 0)
  {
  }

  /** The probe timer: off while the peer has a window; first 7 s, then half as long again
      each time it runs out, up to 120 s. */
  lemma ProbeTimer(k: Endpoint, env: Env)
    ensures var k', now := Flush(k, false, env).k, env.clock(0);
            && (k.rmtWnd != 0 ==> k'.tsProbe == k'.probeWait == 0)
            && (k.rmtWnd == 0 && k.probeWait == 0 ==> k'.probeWait == 7000 && k'.tsProbe == Wrap(now + 7000))
            && (k.rmtWnd == 0 && k.probeWait != 0 ==>
                  if TimeDiff(now, k.tsProbe) < 0 then k'.tsProbe == k.tsProbe && k'.probeWait == k.probeWait
                  else k'.probeWait == Min(Max(k.probeWait, 7000) * 3 / 2, 120000)
                       && k'.tsProbe == Wrap(now + k'.probeWait))
            && !k'.askSend && !k'.askTell && k'.acklist == []
  {
    hide Wrap, TimeDiff, Swept, Admitted, Number;
  }

  // ---- Data ----

  /** The four reasons to send a buffered segment: it never was; enough later ones have been
      acknowledged; some have and nothing new was admitted; its timer has run out. */
  predicate Resends(seg: Segment, fastresend: int, idle: bool, now: u32) {
    && !seg.acked
    && (|| seg.xmit == 0
        || seg.fastack >= (if fastresend > 0 then Min(fastresend, 0x7FFF_FFFF) else 0xFFFF_FFFF)
        || (seg.fastack > 0 && idle)
        || TimeDiff(now, seg.resendts) >= 0)
  }

  /** Only the timer backs off: it adds the current timeout, or half of it, to the last. */
  function NewTimeout(seg: Segment, fastresend: int, idle: bool, nodelay: u32, rto: u32): u32 {
    if seg.xmit == 0 || (seg.fastack > 0 && idle)
       || seg.fastack >= (if fastresend > 0 then Min(fastresend, 0x7FFF_FFFF) else 0xFFFF_FFFF) then rto
    else Wrap(seg.rto + if nodelay == 0 then rto else rto / 2)
  }

  /** How many of the first `i` segments were sent: their `xmit` moved. */
  function SentBefore(was: seq<Segment>, buf: seq<Segment>, i: nat): nat
    requires i <= |was| == |buf|
  {
    if i == 0 then 0 else SentBefore(was, buf, i - 1) + (if buf[i - 1].xmit != was[i - 1].xmit then 1 else 0)
  }

  /** What of the first `i` was sent, in order. */
  function Sent(was: seq<Segment>, buf: seq<Segment>, i: nat): seq<Segment>
    requires i <= |was| == |buf|
  {
    if i == 0 then []
    else Sent(was, buf, i - 1) + (if buf[i - 1].xmit != was[i - 1].xmit then [OnWire(buf[i - 1])] else [])
  }

  /** The clock as the pass sees it at segment `i`: read at the start and after each sending. */
  function Now(was: seq<Segment>, buf: seq<Segment>, i: nat, start: u32, tick: nat, clock: nat -> u32): u32
    requires i <= |was| == |buf|
  {
    if SentBefore(was, buf, i) == 0 then start else clock(tick + SentBefore(was, buf, i) - 1)
  }

  /** Segment `i` of a pass. */
  ghost predicate Passed(k: Endpoint, was: seq<Segment>, buf: seq<Segment>, i: nat, idle: bool, env: Env,
                         start: u32, tick: nat)
    requires i < |was| == |buf|
  {
    var seg, now := was[i], Now(was, buf, i, start, tick, env.clock);
    if Resends(seg, k.fastresend, idle, now) then
      var rto := NewTimeout(seg, k.fastresend, idle, k.nodelay, env.rto);
      buf[i] == seg.(xmit := Wrap(seg.xmit + 1), ts := env.clock(tick + SentBefore(was, buf, i)),
                     wnd := Advert(k), una := k.rcvNxt, rto := rto, resendts := Wrap(now + rto),
                     fastack := if seg.xmit == 0 then seg.fastack else 0)
    else buf[i] == seg
  }

  ghost predicate AllPassed(k: Endpoint, was: seq<Segment>, buf: seq<Segment>, idle: bool, env: Env,
                            start: u32, tick: nat)
  {
    |was| == |buf| && forall i :: 0 <= i < |was| ==> Passed(k, was, buf, i, idle, env, start, tick)
  }

  lemma VisitPasses(k: Endpoint, seg: Segment, idle: bool, env: Env, now: u32, tick: nat, p: Packer)
    ensures var w := Pass(Unused(k), k.rcvNxt, k.mtu, env.rto, Resent(k.fastresend), idle, k.nodelay, env.clock);
            var v := Visit(seg, w, now, tick, p);
            && Passed(k, [seg], [v.seg], 0, idle, env, now, tick)
            && if Resends(seg, k.fastresend, idle, now)
               then All(v.p) == All(p) + [OnWire(v.seg)] && v.current == env.clock(tick) && v.tick == tick + 1
                    && v.seg.xmit != seg.xmit
               else v == Visited(seg, now, tick, p)
  {
    hide TimeDiff, All, Room;
    RoomIs(k);
    XmitMoves(seg.xmit);
    RoomKeeps(p, OVERHEAD + |seg.data|, k.mtu);
    var w := Pass(Unused(k), k.rcvNxt, k.mtu, env.rto, Resent(k.fastresend), idle, k.nodelay, env.clock);
    AddAdds(Room(p, OVERHEAD + |seg.data|, k.mtu), OnWire(Visit(seg, w, now, tick, p).seg));
  }

  lemma XmitMoves(x: u32)
    ensures Wrap(x + 1) != x
  {
  }

  /** What the rest of a pass makes of the rest of the buffer is what the whole pass does. */
  lemma {:induction false} SentShift(seg: Segment, x: Segment, was: seq<Segment>, buf: seq<Segment>, i: nat)
    requires i <= |was| == |buf|
    ensures var first := if x.xmit != seg.xmit then 1 else 0;
            && SentBefore([seg] + was, [x] + buf, i + 1) == first + SentBefore(was, buf, i)
            && Sent([seg] + was, [x] + buf, i + 1)
               == (if x.xmit != seg.xmit then [OnWire(x)] else []) + Sent(was, buf, i)
  {
    if i > 0 {
      SentShift(seg, x, was, buf, i - 1);
      assert ([seg] + was)[i] == was[i - 1] && ([x] + buf)[i] == buf[i - 1];
      hide OnWire;
      var head: seq<Segment> := if x.xmit != seg.xmit then [OnWire(x)] else [];
      var last: seq<Segment> := if buf[i - 1].xmit != was[i - 1].xmit then [OnWire(buf[i - 1])] else [];
      assert head + Sent(was, buf, i - 1) + last == head + (Sent(was, buf, i - 1) + last);
    } else {
      assert ([seg] + was)[0] == seg && ([x] + buf)[0] == x;
      assert Sent([seg] + was, [x] + buf, 0) == [];
    }
  }

  lemma {:induction false} SweepPasses(k: Endpoint, todo: seq<Segment>, idle: bool, env: Env, now: u32, tick: nat,
                                       p: Packer)
    ensures var w := Pass(Unused(k), k.rcvNxt, k.mtu, env.rto, Resent(k.fastresend), idle, k.nodelay, env.clock);
            var (buf, p') := Sweep(todo, w, now, tick, p);
            && |buf| == |todo| && AllPassed(k, todo, buf, idle, env, now, tick)
            && All(p') == All(p) + Sent(todo, buf, |todo|)
    decreases |todo|
  {
    hide Sweep, Visit, All, Sent, Resends, AllPassed, Passed, OnWire, Resent;
    var w := Pass(Unused(k), k.rcvNxt, k.mtu, env.rto, Resent(k.fastresend), idle, k.nodelay, env.clock);
    if todo == [] {
      SweepNothing(k, w, idle, env, now, tick, p);
    } else {
      var v := Visit(todo[0], w, now, tick, p);
      VisitPasses(k, todo[0], idle, env, now, tick, p);
      SweepPasses(k, todo[1..], idle, env, v.current, v.tick, v.p);
      SweepFirst(todo, w, now, tick, p);
      var (rest, p') := Sweep(todo[1..], w, v.current, v.tick, v.p);
      assert todo == [todo[0]] + todo[1..];
      PassesJoin(k, todo[0], v.seg, todo[1..], rest, idle, env, now, tick, v.current, v.tick);
      SentShift(todo[0], v.seg, todo[1..], rest, |todo| - 1);
      Joined(All(p), if v.seg.xmit != todo[0].xmit then [OnWire(v.seg)] else [], Sent(todo[1..], rest, |todo| - 1));
    }
  }

  lemma Joined(a: seq<Segment>, b: seq<Segment>, c: seq<Segment>)
    ensures a + b + c == a + (b + c) && (b == [] ==> a + b == a)
  {
  }

  lemma SweepNothing(k: Endpoint, w: Pass, idle: bool, env: Env, now: u32, tick: nat, p: Packer)
    ensures Sweep([], w, now, tick, p) == ([], p)
    ensures AllPassed(k, [], [], idle, env, now, tick) && All(p) == All(p) + Sent([], [], 0)
  {
    hide All;
    assert All(p) + [] == All(p);
  }

  lemma SweepFirst(todo: seq<Segment>, w: Pass, now: u32, tick: nat, p: Packer)
    requires todo != []
    ensures var v := Visit(todo[0], w, now, tick, p);
            var (rest, p') := Sweep(todo[1..], w, v.current, v.tick, v.p);
            Sweep(todo, w, now, tick, p) == ([v.seg] + rest, p')
  {
    hide Visit;
  }

  lemma PassesJoin(k: Endpoint, seg: Segment, x: Segment, was: seq<Segment>, buf: seq<Segment>, idle: bool, env: Env,
                   now: u32, tick: nat, now1: u32, tick1: nat)
    requires Passed(k, [seg], [x], 0, idle, env, now, tick) && AllPassed(k, was, buf, idle, env, now1, tick1)
    requires if x.xmit != seg.xmit then now1 == env.clock(tick) && tick1 == tick + 1 else now1 == now && tick1 == tick
    ensures AllPassed(k, [seg] + was, [x] + buf, idle, env, now, tick)
  {
    hide Passed;
    var whole, after := [seg] + was, [x] + buf;
    forall i | 0 <= i < |whole| ensures Passed(k, whole, after, i, idle, env, now, tick) {
      if i > 0 {
        PassedShift(k, seg, x, was, buf, i - 1, idle, env, now, tick, now1, tick1);
      } else {
        PassedFirst(k, seg, x, was, buf, idle, env, now, tick);
      }
    }
  }

  lemma PassedFirst(k: Endpoint, seg: Segment, x: Segment, was: seq<Segment>, buf: seq<Segment>, idle: bool, env: Env,
                    now: u32, tick: nat)
    requires Passed(k, [seg], [x], 0, idle, env, now, tick) && |was| == |buf|
    ensures Passed(k, [seg] + was, [x] + buf, 0, idle, env, now, tick)
  {
    hide Resends, NewTimeout, Wrap, Advert;
    assert SentBefore([seg] + was, [x] + buf, 0) == SentBefore([seg], [x], 0) == 0;
  }

  lemma PassedShift(k: Endpoint, seg: Segment, x: Segment, was: seq<Segment>, buf: seq<Segment>, i: nat, idle: bool,
                    env: Env, now: u32, tick: nat, now1: u32, tick1: nat)
    requires |was| == |buf| && i < |was| && Passed(k, was, buf, i, idle, env, now1, tick1)
    requires if x.xmit != seg.xmit then now1 == env.clock(tick) && tick1 == tick + 1 else now1 == now && tick1 == tick
    ensures Passed(k, [seg] + was, [x] + buf, i + 1, idle, env, now, tick)
  {
    hide Resends, NewTimeout, Wrap, Advert, SentBefore;
    SentShift(seg, x, was, buf, i);
    assert ([seg] + was)[i + 1] == was[i] && ([x] + buf)[i + 1] == buf[i];
  }

  /** How many queued segments a flush admits: as many as the smallest of the three windows
      leaves room for. */
  function Admits(k: Endpoint, cwnd: u32): (n: nat)
    ensures n <= |k.sndQueue|
  {
    Min(|k.sndQueue|, Max(0, Min(cwnd, Min(k.sndWnd, k.rmtWnd)) - |k.sndBuf|))
  }

  /** The send buffer with the admitted segments numbered behind it. */
  function Buffered(k: Endpoint, cwnd: u32): (was: seq<Segment>)
    ensures |was| == |k.sndBuf| + Admits(k, cwnd)
  {
    k.sndBuf + seq(Admits(k, cwnd), i requires 0 <= i < Admits(k, cwnd) =>
      k.sndQueue[i].(conv := k.conv, cmd := CMD_PUSH, sn := Wrap(k.sndNxt + i)))
  }

  lemma BufferedIs(k: Endpoint, env: Env)
    ensures Refilled(k, env).sndBuf == Buffered(k, env.cwnd)
    ensures Refilled(k, env).sndQueue == k.sndQueue[Admits(k, env.cwnd)..]
    ensures Refilled(k, env).sndNxt == Wrap(k.sndNxt + Admits(k, env.cwnd))
  {
    hide Wrap, Number, Refilled;
    var m := Admitted(k, SendWindow(k, env.cwnd));
    RefilledIs(k, env);
    assert m == Admits(k, env.cwnd);
    var q := k.sndQueue[..m];
    forall i | 0 <= i < m
      ensures Number(q, k.conv, k.sndNxt)[i] == k.sndQueue[i].(conv := k.conv, cmd := CMD_PUSH, sn := Wrap(k.sndNxt + i))
    {
      NumberAt(q, k.conv, k.sndNxt, i);
    }
  }

  /** All of a full flush: what goes out is the acknowledgements that still matter, the
      probes, and the due segments in order; each buffered segment that went out is stamped
      and rearmed, and the others are as they were. */
  lemma FlushSends(k: Endpoint, env: Env)
    ensures var o, was := Flush(k, false, env), Buffered(k, env.cwnd);
            && |o.k.sndBuf| == |was|
            && AllPassed(k, was, o.k.sndBuf, Admits(k, env.cwnd) == 0, env, env.clock(1), 2)
            && Flatten(o.out)
               == Acks(k, |k.acklist|) + Probes(k, env.clock(0)) + Sent(was, o.k.sndBuf, |was|)
            && o.k.sndQueue == k.sndQueue[Admits(k, env.cwnd)..]
            && o.k.sndNxt == Wrap(k.sndNxt + Admits(k, env.cwnd)) && o.code == 0
  {
    hide Wrap, Sweep, All, Sent, AllPassed, Acks, Probes, Flatten, Buffered, Refilled, Announced, Close, Resent;
    BufferedIs(k, env);
    AnnouncedAll(k, env);
    SweepPasses(k, Buffered(k, env.cwnd), Admits(k, env.cwnd) == 0, env, env.clock(1), 2, Announced(k, env));
    CloseKeeps(Swept(k, env).1);
  }

  /** All of an ACK flush. */
  lemma AckFlushSends(k: Endpoint, env: Env)
    ensures var o := Flush(k, true, env);
            && Flatten(o.out) == Acks(k, |k.acklist|) && o.k == k.(acklist := []) && o.code == 0
  {
    hide All, Acks, Flatten, Announced, Close, AckPacker;
    AnnouncedAll(k, env);
    CloseKeeps(AckPacker(k));
  }

  /** Apart from that a flush touches only timers and flags. */
  lemma FlushFrames(k: Endpoint, env: Env)
    ensures var k' := Flush(k, false, env).k;
            k' == k.(sndBuf := k'.sndBuf, sndQueue := k'.sndQueue, sndNxt := k'.sndNxt, acklist := [],
                     askSend := false, askTell := false, tsProbe := k'.tsProbe, probeWait := k'.probeWait)
  {
    hide Refilled, Swept;
    RefilledIs(k, env);
  }

  // ---- One segment ----

  ghost predicate GoesOut(out: seq<seq<Segment>>, sn: u32, data: seq<byte>) {
    exists dg, t :: dg in out && t in dg && t.cmd == CMD_PUSH && t.sn == sn && t.data == data
  }

  lemma {:induction false} FlattenHas(out: seq<seq<Segment>>, t: Segment)
    ensures t in Flatten(out) <==> exists dg :: dg in out && t in dg
  {
    if out != [] {
      var front, last := out[..|out| - 1], out[|out| - 1];
      FlattenHas(front, t);
      assert out == front + [last];
      if t in last {
        assert last in out;
      }
      if dg :| dg in front && t in dg {
        assert dg in out;
      }
    }
  }

  lemma {:induction false} AcksAreNoData(k: Endpoint, n: nat)
    requires n <= |k.acklist|
    ensures forall t :: t in Acks(k, n) ==> t.cmd != CMD_PUSH
  {
    hide TimeDiff, Advert;
    if n > 0 {
      AcksAreNoData(k, n - 1);
    }
  }

  lemma ProbesAreNoData(k: Endpoint, now: u32)
    ensures forall t :: t in Probes(k, now) ==> t.cmd != CMD_PUSH
  {
    hide TimeDiff, Advert;
  }

  lemma {:induction false} SentHas(was: seq<Segment>, buf: seq<Segment>, n: nat, t: Segment)
    requires n <= |was| == |buf|
    ensures t in Sent(was, buf, n) <==> exists i :: 0 <= i < n && buf[i].xmit != was[i].xmit && t == OnWire(buf[i])
  {
    hide OnWire;
    if n > 0 {
      SentHas(was, buf, n - 1, t);
      if buf[n - 1].xmit != was[n - 1].xmit && t == OnWire(buf[n - 1]) {
        assert t in Sent(was, buf, n);
      }
    }
  }

  /** A segment of the refilled buffer is in some datagram of the flush exactly when one of
      the four reasons holds for it; then its count of sendings goes up by one and its timer
      starts again. An acknowledged one never goes out. */
  lemma DueGoesOut(k: Endpoint, env: Env, i: nat)
    requires Valid(k) && i < |Buffered(k, env.cwnd)|
    ensures var o, was, idle := Flush(k, false, env), Buffered(k, env.cwnd), Admits(k, env.cwnd) == 0;
            |o.k.sndBuf| == |was| &&
            var seg, now := was[i], Now(was, o.k.sndBuf, i, env.clock(1), 2, env.clock);
            && (GoesOut(o.out, seg.sn, seg.data) <==> Resends(seg, k.fastresend, idle, now))
            && (Resends(seg, k.fastresend, idle, now) ==>
                  var rto := NewTimeout(seg, k.fastresend, idle, k.nodelay, env.rto);
                  o.k.sndBuf[i].xmit == Wrap(seg.xmit + 1) && o.k.sndBuf[i].resendts == Wrap(now + rto))
            && (!Resends(seg, k.fastresend, idle, now) ==> o.k.sndBuf[i] == seg)
  {
    hide Wrap, Flush, Buffered, Admits, Acks, Probes, Sent, Flatten, Resends, NewTimeout, Now, SentBefore, Advert;
    var o, was := Flush(k, false, env), Buffered(k, env.cwnd);
    FlushSends(k, env);
    XmitMoves(was[i].xmit);
    BufferedNumbers(k, env);
    assert Passed(k, was, o.k.sndBuf, i, Admits(k, env.cwnd) == 0, env, env.clock(1), 2);
    AcksAreNoData(k, |k.acklist|);
    ProbesAreNoData(k, env.clock(0));
    if o.k.sndBuf[i].xmit != was[i].xmit {
      var t := OnWire(o.k.sndBuf[i]);
      SentHas(was, o.k.sndBuf, |was|, t);
      FlattenHas(o.out, t);
      assert t in Flatten(o.out);
    }
    if dg, t :| dg in o.out && t in dg && t.cmd == CMD_PUSH && t.sn == was[i].sn && t.data == was[i].data {
      FlattenHas(o.out, t);
      SentHas(was, o.k.sndBuf, |was|, t);
      var j :| 0 <= j < |was| && o.k.sndBuf[j].xmit != was[j].xmit && t == OnWire(o.k.sndBuf[j]);
      assert Passed(k, was, o.k.sndBuf, j, Admits(k, env.cwnd) == 0, env, env.clock(1), 2);
      assert was[j].sn == was[i].sn;
    }
  }

  /** Buffered segments are data segments, no two with the same number. */
  lemma BufferedNumbers(k: Endpoint, env: Env)
    requires Valid(k)
    ensures var was := Buffered(k, env.cwnd);
            && (forall i :: 0 <= i < |was| ==> was[i].cmd == CMD_PUSH)
            && (forall i, j :: 0 <= i < |was| && 0 <= j < |was| && was[i].sn == was[j].sn ==> i == j)
  {
    hide Wrap, Refilled, Buffered;
    BufferedIs(k, env);
    RefilledKeeps(k, env);
    DistinctNumbers(Refilled(k, env));
  }

  lemma DistinctNumbers(k: Endpoint)
    requires Valid(k)
    ensures forall i, j :: 0 <= i < |k.sndBuf| && 0 <= j < |k.sndBuf| && k.sndBuf[i].sn == k.sndBuf[j].sn ==> i == j
  {
    forall i, j | 0 <= i < |k.sndBuf| && 0 <= j < |k.sndBuf| && k.sndBuf[i].sn == k.sndBuf[j].sn ensures i == j {
      TimeDiffIsOffset(k.sndUna + i, k.sndUna + j);
    }
  }

  // ---- Packing ----

  /** No datagram had room for the first segment of the next one. */
  ghost predicate Packed(out: seq<seq<Segment>>, mtu: int) {
    && (forall i :: 0 <= i < |out| ==> out[i] != [])
    && (forall i :: 0 < i < |out| ==> WireSize(out[i - 1]) + OVERHEAD + |out[i][0].data| > mtu)
  }

  /** ... and neither has the last one pushed for what is being filled or comes next. */
  ghost predicate Tight(p: Packer, mtu: int) {
    && Packed(p.out, mtu)
    && (p.out != [] ==>
          WireSize(p.out[|p.out| - 1]) + OVERHEAD + (if p.cur != [] then |p.cur[0].data| else 0) > mtu)
  }

  lemma RoomTight(p: Packer, mtu: int)
    requires mtu >= OVERHEAD && Tight(p, mtu)
    ensures Tight(Room(p, OVERHEAD, mtu), mtu)
  {
    hide WireSize;
    EmptySize();
  }

  lemma PutTight(p: Packer, s: Segment, mtu: int)
    requires OVERHEAD + |s.data| <= mtu && Tight(p, mtu)
    ensures Tight(Add(Room(p, OVERHEAD + |s.data|, mtu), s), mtu)
  {
    hide WireSize;
    EmptySize();
  }

  lemma EmptySize()
    ensures WireSize([]) == 0
  {
  }

  lemma {:induction false} PutAcksTight(acks: seq<(u32, u32)>, i: nat, ctrl: Segment, rcvNxt: u32, mtu: nat, p: Packer)
    requires i <= |acks| && ctrl.data == [] && mtu >= OVERHEAD && Tight(p, mtu)
    ensures Tight(PutAcks(acks, i, ctrl, rcvNxt, mtu, p), mtu)
    decreases |acks| - i
  {
    hide Tight, TimeDiff, Room;
    if i < |acks| {
      var seg := ctrl.(sn := acks[i].0, ts := acks[i].1);
      RoomTight(p, mtu);
      PutTight(p, seg, mtu);
      var p1 := Room(p, OVERHEAD, mtu);
      PutAcksTight(acks, i + 1, ctrl, rcvNxt, mtu,
                   if TimeDiff(acks[i].0, rcvNxt) >= 0 || i == |acks| - 1 then Add(p1, seg) else p1);
    }
  }

  lemma {:induction false} SweepTight(todo: seq<Segment>, w: Pass, now: u32, tick: nat, p: Packer)
    requires Small(todo, w.mtu - OVERHEAD) && Tight(p, w.mtu)
    ensures Tight(Sweep(todo, w, now, tick, p).1, w.mtu)
    decreases |todo|
  {
    hide Tight, TimeDiff, Wrap, Room, Due;
    if todo != [] {
      var sent := OnWire(Stamp(Rearm(todo[0], w, now), w, w.clock(tick)));
      assert sent.data == todo[0].data;
      PutTight(p, sent, w.mtu);
      var v := Visit(todo[0], w, now, tick, p);
      SweepTight(todo[1..], w, v.current, v.tick, v.p);
    }
  }

  /** A flush fills its datagrams: none had room for the segment that begins the next. */
  lemma FlushFills(k: Endpoint, ackOnly: bool, env: Env)
    requires Valid(k)
    ensures Packed(Flush(k, ackOnly, env).out, k.mtu)
  {
    hide Sweep, PutAcks, TimeDiff, Room, Refilled, Valid;
    RefilledKeeps(k, env);
    RefilledSmall(Refilled(k, env));
    PutAcksTight(k.acklist, 0, Control(k), k.rcvNxt, k.mtu, Packer([], []));
    var k1 := Probe(k, env.clock(0));
    var wask, wins := AfterAcks(k).(cmd := CMD_WASK), AfterAcks(k).(cmd := CMD_WINS);
    PutTight(AckPacker(k), wask, k.mtu);
    PutTight(PutProbe(k1.askSend, wask, k.mtu, AckPacker(k)), wins, k.mtu);
    SweepTight(Refilled(k, env).sndBuf, FlushPass(k, env), env.clock(1), 2, Announced(k, env));
    TightCloses(AckPacker(k), k.mtu);
    TightCloses(Swept(k, env).1, k.mtu);
  }

  lemma RefilledSmall(k: Endpoint)
    requires Valid(k)
    ensures Small(k.sndBuf, k.Mss())
  {
  }

  lemma TightCloses(p: Packer, mtu: int)
    ensures Tight(p, mtu) ==> Packed(Close(p), mtu)
  {
    hide WireSize;
  }

  // ---- Queueing ----

  /** How much of what is sent goes into the last queued segment: in stream mode, what fits. */
  function Fills(k: Endpoint, buf: seq<byte>): (n: nat)
    ensures n <= |buf|
  {
    if k.stream && k.sndQueue != []
    then Min(Max(0, k.Mss() - |k.sndQueue[|k.sndQueue| - 1].data|), |buf|) else 0
  }

  /** `rest` cut into pieces of `mss` bytes but for the last, counted down in message mode. */
  ghost predicate CutInto(pieces: seq<Segment>, rest: seq<byte>, mss: nat, stream: bool) {
    && (|pieces| - 1) * mss < |rest| <= |pieces| * mss
    && forall i :: 0 <= i < |pieces| ==> IsPiece(pieces, i, rest, mss, stream)
  }

  ghost predicate IsPiece(pieces: seq<Segment>, i: nat, rest: seq<byte>, mss: nat, stream: bool)
    requires i < |pieces|
  {
    && |pieces| - 1 - i <= 255 && i * mss <= Min(i * mss + mss, |rest|)
    && pieces[i] == BLANK.(frg := if stream then 0 else |pieces| - 1 - i,
                           data := rest[i * mss..Min(i * mss + mss, |rest|)])
  }

  lemma Less(i: nat, mss: nat)
    ensures (i + 1) * mss == i * mss + mss
  {
  }

  lemma {:induction false} FragmentsCut(buf: seq<byte>, mss: nat, count: nat, stream: bool)
    requires 0 < count <= 255 && 0 < mss && (count - 1) * mss < |buf| <= count * mss
    ensures |Fragments(buf, mss, count, stream)| == count
    ensures CutInto(Fragments(buf, mss, count, stream), buf, mss, stream)
    decreases count
  {
    hide IsPiece;
    if count == 1 {
      OneFragment(buf, mss, stream);
    } else {
      Less(count - 2, mss);
      Less(count - 1, mss);
      MoreThanOne(count, mss);
      FirstFragment(buf, mss, count, stream);
      hide Fragments;
      FragmentsCut(buf[mss..], mss, count - 1, stream);
      var q, r := Fragments(buf[mss..], mss, count - 1, stream), Fragments(buf, mss, count, stream);
      forall i | 0 <= i < count ensures IsPiece(r, i, buf, mss, stream) {
        if i > 0 {
          PieceShift(r[0], q, i - 1, buf, mss, stream);
        }
      }
    }
  }

  lemma OneFragment(buf: seq<byte>, mss: nat, stream: bool)
    requires 0 < |buf| <= mss
    ensures var q := Fragments(buf, mss, 1, stream); |q| == 1 && IsPiece(q, 0, buf, mss, stream)
  {
    assert buf[0..|buf|] == buf[..|buf|] == buf;
    assert Fragments(buf[|buf|..], mss, 0, stream) == [];
  }

  lemma FirstFragment(buf: seq<byte>, mss: nat, count: nat, stream: bool)
    requires 1 < count <= 255 && mss < |buf|
    ensures var q, r := Fragments(buf[mss..], mss, count - 1, stream), Fragments(buf, mss, count, stream);
            && r == [r[0]] + q && (|q| == count - 1 ==> IsPiece(r, 0, buf, mss, stream))
  {
    assert buf[0..mss] == buf[..mss];
  }

  lemma PieceShift(first: Segment, q: seq<Segment>, i: nat, buf: seq<byte>, mss: nat, stream: bool)
    requires i < |q| && mss <= |buf| && IsPiece(q, i, buf[mss..], mss, stream)
    ensures IsPiece([first] + q, i + 1, buf, mss, stream)
  {
    Less(i, mss);
    Tail(buf, mss, i * mss, Min(i * mss + mss, |buf| - mss));
  }

  lemma MoreThanOne(count: nat, mss: nat)
    requires count >= 2
    ensures (count - 1) * mss >= mss
  {
    Less(count - 2, mss);
  }

  lemma Tail(buf: seq<byte>, m: nat, i: nat, j: nat)
    requires m <= |buf| && i <= j <= |buf| - m
    ensures buf[m..][i..j] == buf[m + i..m + j]
  {
  }

  lemma CountIs(length: nat, mss: nat)
    requires 0 < mss && 0 < length
    ensures var c := FragmentCount(length, mss);
            (c - 1) * mss < length <= c * mss && (c > 255 <==> length > 255 * mss)
  {
    var c := FragmentCount(length, mss);
    if length > mss {
      var r := (length + mss - 1) % mss;
      assert length + mss - 1 == c * mss + r;
      Less(c - 1, mss);
    }
    if c > 255 {
      Grows(255, c - 1, mss);
    } else {
      Grows(c, 255, mss);
    }
  }

  lemma Grows(a: nat, b: nat, mss: nat)
    requires a <= b
    ensures a * mss <= b * mss
  {
  }

  /** `send`: -1 for nothing; otherwise stream mode fills the last queued segment, and what
      is left is queued in pieces and 0 returned, or refused with -2 if it takes more than
      255 of them. */
  lemma SendIs(k: Endpoint, buf: seq<byte>) returns (pieces: seq<Segment>)
    ensures buf == [] ==> Send(k, buf) == (k, -1)
    ensures buf != [] ==>
              var (k', code) := Send(k, buf); var n := Fills(k, buf); var last := |k.sndQueue| - 1;
              var filled := if n == 0 then k.sndQueue
                            else k.sndQueue[last := k.sndQueue[last].(data := k.sndQueue[last].data + buf[..n])];
              && (n == |buf| ==> code == 0 && k' == k.(sndQueue := filled))
              && (n < |buf| && |buf| - n > 255 * k.Mss() ==> code == -2 && k' == k.(sndQueue := filled))
              && (n < |buf| && |buf| - n <= 255 * k.Mss() ==>
                    && code == 0 && k' == k.(sndQueue := filled + pieces)
                    && CutInto(pieces, buf[n..], k.Mss(), k.stream))
  {
    hide Fragments, FragmentCount, CutInto;
    pieces := [];
    if buf != [] {
      var rest := buf[Absorbed(k, buf)..];
      assert Absorbed(k, buf) == Fills(k, buf);
      if rest != [] {
        var count := FragmentCount(|rest|, k.Mss());
        CountIs(|rest|, k.Mss());
        if count <= 255 {
          FragmentsCut(rest, k.Mss(), count, k.stream);
          pieces := Fragments(rest, k.Mss(), count, k.stream);
        }
      }
    }
  }
}
