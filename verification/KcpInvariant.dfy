/** What every reachable KCP endpoint looks like, whatever datagrams it is fed and
    wherever its sequence numbers are relative to the 2^32 wrap. */
module KcpInvariant {
  import opened Words
  import opened KcpWire
  import opened KcpSpec

  /** The send buffer holds consecutive sequence numbers from `una` up to `nxt`. */
  ghost predicate Numbered(buf: seq<Segment>, una: u32, nxt: u32) {
    && nxt == Wrap(una + |buf|)
    && forall i :: 0 <= i < |buf| ==> buf[i].sn == Wrap(una + i)
  }

  /** The out-of-order buffer is strictly sorted inside `[from, from + wnd)`. */
  ghost predicate Windowed(buf: seq<Segment>, from: u32, wnd: int) {
    && (forall i :: 0 <= i < |buf| ==> Offset(buf[i].sn, from) < wnd)
    && (forall i, j :: 0 <= i < j < |buf| ==> Offset(buf[i].sn, from) < Offset(buf[j].sn, from))
  }

  /** No segment that could be delivered is left waiting in the out-of-order buffer. */
  ghost predicate Settled(k: Endpoint) {
    k.rcvBuf == [] || k.rcvBuf[0].sn != k.rcvNxt || |k.rcvQueue| >= k.rcvWnd
  }

  ghost predicate Small(buf: seq<Segment>, max: int) {
    forall i :: 0 <= i < |buf| ==> |buf[i].data| <= max
  }

  /** What `flush` wrote into a segment when it entered the send buffer. */
  ghost predicate Labelled(buf: seq<Segment>, conv: u32) {
    forall i :: 0 <= i < |buf| ==> buf[i].conv == conv && buf[i].cmd == CMD_PUSH
  }

  /** Nothing acknowledges a segment that has no number yet. */
  ghost predicate Unacked(q: seq<Segment>) {
    forall i :: 0 <= i < |q| ==> !q[i].acked
  }

  ghost predicate Valid(k: Endpoint) {
    && Numbered(k.sndBuf, k.sndUna, k.sndNxt)
    && |k.sndBuf| <= k.sndWnd
    && Windowed(k.rcvBuf, k.rcvNxt, k.rcvWnd)
    && |k.rcvQueue| <= k.rcvWnd
    && Settled(k)
    && Small(k.sndQueue, k.Mss()) && Small(k.sndBuf, k.Mss())
    && Labelled(k.sndBuf, k.conv) && Unacked(k.sndQueue)
  }

  // ---- Receiving ----

  /** The endpoint after the first ready segment has moved. */
  function MoveFirst(k: Endpoint): Endpoint
    requires k.rcvBuf != []
  {
    k.(rcvBuf := k.rcvBuf[1..], rcvQueue := k.rcvQueue + [k.rcvBuf[0]], rcvNxt := Wrap(k.rcvNxt + 1))
  }

  ghost predicate CanMove(k: Endpoint) {
    k.rcvBuf != [] && k.rcvBuf[0].sn == k.rcvNxt && |k.rcvQueue| < k.rcvWnd
  }

  lemma MoveReadyStep(k: Endpoint)
    ensures CanMove(k) ==> MoveReady(k) == MoveReady(MoveFirst(k))
    ensures !CanMove(k) ==> MoveReady(k) == k
  {
    hide Wrap;
    var n := ReadyCount(k.rcvBuf, k.rcvNxt, Max(0, k.rcvWnd - |k.rcvQueue|));
    if CanMove(k) {
      WrapSum(k.rcvNxt + 1, n - 1);
      assert k.rcvQueue + k.rcvBuf[..n] == k.rcvQueue + [k.rcvBuf[0]] + k.rcvBuf[1..][..n - 1];
    } else {
      WrapSmall(k.rcvNxt);
      assert k.rcvQueue + k.rcvBuf[..0] == k.rcvQueue;
    }
  }

  lemma MoveFirstWindowed(buf: seq<Segment>, nxt: u32, wnd: int)
    requires Windowed(buf, nxt, wnd) && buf != [] && buf[0].sn == nxt
    ensures Windowed(buf[1..], Wrap(nxt + 1), wnd)
  {
    forall i | 0 < i < |buf| ensures Offset(buf[i].sn, Wrap(nxt + 1)) == Offset(buf[i].sn, nxt) - 1 {
      assert Offset(buf[0].sn, nxt) < Offset(buf[i].sn, nxt);
      OffsetStep(buf[i].sn, nxt);
    }
  }

  /** `MoveReady` keeps the window and stops only when nothing more can move. */
  lemma {:induction false} MoveReadyKeeps(k: Endpoint)
    requires Windowed(k.rcvBuf, k.rcvNxt, k.rcvWnd) && |k.rcvQueue| <= k.rcvWnd
    ensures var k' := MoveReady(k);
            Windowed(k'.rcvBuf, k'.rcvNxt, k'.rcvWnd) && |k'.rcvQueue| <= k'.rcvWnd && Settled(k')
    decreases |k.rcvBuf|
  {
    MoveReadyStep(k);
    hide MoveReady;
    if CanMove(k) {
      MoveFirstWindowed(k.rcvBuf, k.rcvNxt, k.rcvWnd);
      MoveReadyKeeps(MoveFirst(k));
    }
  }

  lemma RecvKeeps(k: Endpoint, capacity: nat)
    requires Valid(k)
    ensures Valid(Recv(k, capacity).k)
  {
    var size := PeekSize(k.rcvQueue);
    if 0 <= size <= capacity {
      var k1 := k.(rcvQueue := k.rcvQueue[MessageLength(k.rcvQueue)..]);
      MoveReadyKeeps(k1);
    }
  }

  /** Inserting at the back of a shorter buffer, then putting the last segment back. */
  lemma WindowedAppend(buf: seq<Segment>, seg: Segment, from: u32, wnd: int)
    requires Windowed(buf, from, wnd) && Offset(seg.sn, from) < wnd
    requires forall i :: 0 <= i < |buf| ==> Offset(buf[i].sn, from) < Offset(seg.sn, from)
    ensures Windowed(buf + [seg], from, wnd)
  {
  }

  /** The inserted segment, or an earlier copy of it, is in the result; nothing else changes. */
  ghost predicate Inserted(buf: seq<Segment>, seg: Segment, r: seq<Segment>) {
    && (forall s :: s in r ==> s in buf || s == seg)
    && (forall s :: s in buf ==> s in r)
    && (seg in r || exists s :: s in buf && s.sn == seg.sn)
  }

  lemma {:induction false} InsertKeeps(buf: seq<Segment>, seg: Segment, from: u32, wnd: int)
    requires wnd < TWO31 && Windowed(buf, from, wnd) && Offset(seg.sn, from) < wnd
    ensures Windowed(Insert(buf, seg), from, wnd)
    ensures Inserted(buf, seg, Insert(buf, seg))
  {
    if buf != [] {
      var front, last := buf[..|buf| - 1], buf[|buf| - 1];
      assert buf == front + [last];
      OffsetOrder(seg.sn, last.sn, from);
      if last.sn == seg.sn {
        assert last in buf;
      } else if TimeDiff(seg.sn, last.sn) > 0 {
        WindowedAppend(buf, seg, from, wnd);
      } else {
        InsertKeeps(front, seg, from, wnd);
        var r := Insert(front, seg);
        forall i | 0 <= i < |r| ensures Offset(r[i].sn, from) < Offset(last.sn, from) {
          assert r[i] in r;
        }
        WindowedAppend(r, last, from, wnd);
        assert Inserted(front, seg, r);
      }
    }
  }

  /** In a sorted window nothing is inserted exactly when the number is already there. */
  lemma RepeatedIsKnown(buf: seq<Segment>, seg: Segment, from: u32, wnd: int)
    requires wnd < TWO31 && Windowed(buf, from, wnd) && Offset(seg.sn, from) < wnd
    ensures Insert(buf, seg) == buf <==> exists s :: s in buf && s.sn == seg.sn
  {
    InsertKeeps(buf, seg, from, wnd);
    var r := Insert(buf, seg);
    if s :| s in buf && s.sn == seg.sn {
      InsertKnown(buf, seg, from, wnd, s);
    } else {
      assert seg !in buf;
    }
  }

  lemma {:induction false} InsertKnown(buf: seq<Segment>, seg: Segment, from: u32, wnd: int, s: Segment)
    requires wnd < TWO31 && Windowed(buf, from, wnd) && Offset(seg.sn, from) < wnd && s in buf && s.sn == seg.sn
    ensures Insert(buf, seg) == buf
  {
    var front, last := buf[..|buf| - 1], buf[|buf| - 1];
    assert buf == front + [last];
    if last.sn != seg.sn {
      assert s in front;
      OffsetOrder(seg.sn, last.sn, from);
      InsertKnown(front, seg, from, wnd, s);
    }
  }

  lemma ParsePushKeeps(k: Endpoint, seg: Segment)
    requires Valid(k)
    ensures Valid(ParsePush(k, seg))
  {
    WindowTest(seg.sn, k.rcvNxt, k.rcvWnd);
    if TimeDiff(seg.sn, Wrap(k.rcvNxt + k.rcvWnd)) < 0 && TimeDiff(seg.sn, k.rcvNxt) >= 0 {
      InsertKeeps(k.rcvBuf, seg, k.rcvNxt, k.rcvWnd);
      MoveReadyKeeps(k.(acklist := k.acklist + [(seg.sn, seg.ts)], rcvBuf := Insert(k.rcvBuf, seg)));
    }
  }

  // ---- Sending ----

  /** However far off `una` is, what is dropped is a prefix. */
  lemma {:induction false} DropBelowIsSuffix(buf: seq<Segment>, una: u32)
    ensures var r := DropBelow(buf, una);
            && |r| <= |buf| && r == buf[|buf| - |r|..]
            && (r != [] ==> TimeDiff(una, r[0].sn) <= 0)
            && (forall i :: 0 <= i < |buf| - |r| ==> TimeDiff(una, buf[i].sn) > 0)
  {
    if buf != [] && TimeDiff(una, buf[0].sn) > 0 {
      DropBelowIsSuffix(buf[1..], una);
    }
  }

  lemma NumberedSuffix(buf: seq<Segment>, una: u32, nxt: u32, d: nat)
    requires Numbered(buf, una, nxt) && d <= |buf|
    ensures Numbered(buf[d..], Wrap(una + d), nxt)
  {
    var r := buf[d..];
    WrapSum(una + d, |r|);
    forall i | 0 <= i < |r| ensures r[i].sn == Wrap(Wrap(una + d) + i) {
      WrapSum(una + d, i);
      assert r[i] == buf[d + i];
    }
  }

  lemma AcknowledgeKeeps(k: Endpoint, una: u32)
    requires Valid(k)
    ensures Valid(Acknowledge(k, una))
    ensures var r := Acknowledge(k, una).sndBuf;
            && |r| <= |k.sndBuf| && r == k.sndBuf[|k.sndBuf| - |r|..]
            && Acknowledge(k, una).sndUna == Wrap(k.sndUna + (|k.sndBuf| - |r|))
  {
    hide Wrap, TimeDiff, DropBelow;
    var r := DropBelow(k.sndBuf, una);
    DropBelowIsSuffix(k.sndBuf, una);
    NumberedSuffix(k.sndBuf, k.sndUna, k.sndNxt, |k.sndBuf| - |r|);
  }

  /** In a numbered buffer, comparing with `TimeDiff` is comparing positions. */
  lemma NumberedOrder(buf: seq<Segment>, una: u32, nxt: u32, sn: u32, i: nat)
    requires Numbered(buf, una, nxt) && i < |buf| < TWO31 && Offset(sn, una) < TWO31
    ensures TimeDiff(sn, buf[i].sn) == Offset(sn, una) - i
    ensures sn == buf[i].sn <==> Offset(sn, una) == i
  {
    hide Wrap, TimeDiff, Offset;
    var o := Offset(sn, una);
    OffsetReaches(sn, una);
    TimeDiffIsOffset(una + o, una + i);
    TimeDiffIsOffset(una + i, una + i);
  }

  lemma OffsetReaches(sn: u32, una: u32)
    ensures Wrap(una + Offset(sn, una)) == sn
  {
    var o := Offset(sn, una);
    assert una + o == sn || una + o == sn + TWO32;
  }

  /** Rewriting buffered segments in place keeps the endpoint valid if numbers and labels stay. */
  lemma RewriteKeeps(k: Endpoint, buf: seq<Segment>)
    requires Valid(k) && |buf| == |k.sndBuf|
    requires forall i :: 0 <= i < |buf| ==>
               && buf[i].sn == k.sndBuf[i].sn && |buf[i].data| <= |k.sndBuf[i].data|
               && buf[i].conv == k.sndBuf[i].conv && buf[i].cmd == k.sndBuf[i].cmd
    ensures Valid(k.(sndBuf := buf))
  {
  }

  lemma ParseAckKeeps(k: Endpoint, sn: u32, ts: u32)
    requires Valid(k)
    ensures Valid(ParseAck(k, sn, ts))
  {
    RewriteKeeps(k, CountFastAck(MarkAcked(k.sndBuf, sn), sn, ts));
  }

  lemma RequeueKeeps(k: Endpoint, q: seq<Segment>)
    requires Valid(k) && Small(q, k.Mss()) && Unacked(q)
    ensures Valid(k.(sndQueue := q))
  {
  }

  lemma {:induction false} FragmentsSmall(buf: seq<byte>, mss: nat, count: nat, stream: bool)
    requires count <= 255
    ensures Small(Fragments(buf, mss, count, stream), mss) && Unacked(Fragments(buf, mss, count, stream))
    ensures |Fragments(buf, mss, count, stream)| == count
  {
    if count > 0 {
      FragmentsSmall(buf[Min(|buf|, mss)..], mss, count - 1, stream);
    }
  }

  lemma SendKeeps(k: Endpoint, buf: seq<byte>)
    requires Valid(k)
    ensures Valid(Send(k, buf).0)
  {
    hide Valid, Fragments, FragmentCount;
    var q := Send(k, buf).0.sndQueue;
    assert Send(k, buf).0 == k.(sndQueue := q);
    SendQueueSmall(k, buf);
    RequeueKeeps(k, q);
  }

  lemma SendQueueSmall(k: Endpoint, buf: seq<byte>)
    requires Valid(k)
    ensures Small(Send(k, buf).0.sndQueue, k.Mss()) && Unacked(Send(k, buf).0.sndQueue)
  {
    hide Fragments, FragmentCount, Numbered, Windowed, Settled, Labelled;
    var rest := buf[Absorbed(k, buf)..];
    if FragmentCount(|rest|, k.Mss()) <= 255 {
      FragmentsSmall(rest, k.Mss(), FragmentCount(|rest|, k.Mss()), k.stream);
    }
  }

  // ---- Input and flush ----

  lemma ProcessKeeps(k: Endpoint, seg: Segment, regular: bool)
    requires Valid(k)
    ensures Valid(Process(k, seg, regular))
  {
    var k0 := if regular then k.(rmtWnd := seg.wnd) else k;
    AcknowledgeKeeps(k0, seg.una);
    var k1 := Acknowledge(k0, seg.una);
    ParseAckKeeps(k1, seg.sn, seg.ts);
    ParsePushKeeps(k1, seg);
  }

  lemma {:induction false} InputLoopKeeps(k: Endpoint, data: seq<byte>, regular: bool, slides: bool)
    requires Valid(k)
    ensures Valid(InputLoop(k, data, regular, slides).k)
    decreases |data|
  {
    if |data| >= OVERHEAD {
      var head, rest, n := HeadOf(data), data[OVERHEAD..], LengthOf(data);
      if head.conv == k.conv && |rest| >= n && KnownCommand(head.cmd) {
        var seg := head.(data := rest[..n]);
        ProcessKeeps(k, seg, regular);
        InputLoopKeeps(Process(k, seg, regular), rest[n..], regular, slides || Slides(k, head.una));
      }
    }
  }

  lemma {:induction false} NumberAt(q: seq<Segment>, conv: u32, sn: u32, i: nat)
    requires i < |q|
    ensures Number(q, conv, sn)[i] == q[i].(conv := conv, cmd := CMD_PUSH, sn := Wrap(sn + i))
  {
    if i > 0 {
      NumberAt(q[1..], conv, Wrap(sn + 1), i - 1);
      WrapSum(sn + 1, i - 1);
    }
  }

  lemma NumberedAppend(buf: seq<Segment>, una: u32, nxt: u32, q: seq<Segment>, conv: u32)
    requires Numbered(buf, una, nxt)
    ensures Numbered(buf + Number(q, conv, nxt), una, Wrap(nxt + |q|))
  {
    WrapSum(una + |buf|, |q|);
    var r := Number(q, conv, nxt);
    forall i | 0 <= i < |q| ensures r[i].sn == Wrap(una + (|buf| + i)) {
      NumberAt(q, conv, nxt, i);
      WrapSum(una + |buf|, i);
    }
  }

  lemma AdmitKeeps(k: Endpoint, wnd: u32)
    requires Valid(k) && wnd <= k.sndWnd
    ensures Valid(Admit(k, wnd))
  {
    var n := Admitted(k, wnd);
    NumberedAppend(k.sndBuf, k.sndUna, k.sndNxt, k.sndQueue[..n], k.conv);
    var r := Number(k.sndQueue[..n], k.conv, k.sndNxt);
    forall i | 0 <= i < n ensures |r[i].data| <= k.Mss() && r[i].conv == k.conv && r[i].cmd == CMD_PUSH {
      NumberAt(k.sndQueue[..n], k.conv, k.sndNxt, i);
    }
  }

  /** The endpoint after the first queued segment has been numbered. */
  function AdmitFirst(k: Endpoint): Endpoint
    requires k.sndQueue != []
  {
    k.(sndQueue := k.sndQueue[1..], sndNxt := Wrap(k.sndNxt + 1),
       sndBuf := k.sndBuf + [k.sndQueue[0].(conv := k.conv, cmd := CMD_PUSH, sn := k.sndNxt)])
  }

  lemma AdmitStep(k: Endpoint, wnd: u32)
    ensures k.sndQueue != [] && |k.sndBuf| < wnd ==>
              && Admit(k, wnd) == Admit(AdmitFirst(k), wnd)
              && Admitted(k, wnd) == 1 + Admitted(AdmitFirst(k), wnd)
    ensures k.sndQueue == [] || |k.sndBuf| >= wnd ==> Admit(k, wnd) == k && Admitted(k, wnd) == 0
  {
    var n := Admitted(k, wnd);
    if k.sndQueue != [] && |k.sndBuf| < wnd {
      var k1 := AdmitFirst(k);
      WrapSum(k.sndNxt + 1, n - 1);
      assert k.sndQueue[..n][1..] == k1.sndQueue[..n - 1];
      assert k.sndBuf + Number(k.sndQueue[..n], k.conv, k.sndNxt)
          == k1.sndBuf + Number(k1.sndQueue[..n - 1], k.conv, k1.sndNxt);
    } else {
      assert k.sndBuf + Number(k.sndQueue[..0], k.conv, k.sndNxt) == k.sndBuf;
    }
  }

  /** What `flush` may change in a buffered segment: timers, counters and the header
      fields it stamps; never its number, fragment id, data or acked flag. */
  ghost predicate SameSegment(s: Segment, t: Segment) {
    t == s.(rto := t.rto, xmit := t.xmit, resendts := t.resendts, fastack := t.fastack,
            ts := t.ts, wnd := t.wnd, una := t.una)
  }

  lemma {:induction false} SweepKeeps(todo: seq<Segment>, w: Pass, current: u32, tick: nat, p: Packer)
    ensures var buf := Sweep(todo, w, current, tick, p).0;
            |buf| == |todo| && forall i :: 0 <= i < |todo| ==> SameSegment(todo[i], buf[i])
  {
    if todo != [] {
      var v := Visit(todo[0], w, current, tick, p);
      SweepKeeps(todo[1..], w, v.current, v.tick, v.p);
    }
  }

  /** Probing touches nothing but the probe timer and the pending requests. */
  lemma ProbedIs(k: Endpoint, env: Env)
    ensures var k' := Probed(k, env);
            k' == k.(acklist := [], askSend := false, askTell := false,
                     tsProbe := k'.tsProbe, probeWait := k'.probeWait)
  {
  }

  lemma ProbedKeeps(k: Endpoint, env: Env)
    requires Valid(k)
    ensures Valid(Probed(k, env))
  {
    ProbedIs(k, env);
  }

  lemma WindowShrinks(k: Endpoint, env: Env)
    ensures SendWindow(k, env.cwnd) <= Probed(k, env).sndWnd
    ensures Probed(k, env).conv == k.conv && Probed(k, env).mtu == k.mtu
  {
  }

  lemma RefilledKeeps(k: Endpoint, env: Env)
    requires Valid(k)
    ensures Valid(Refilled(k, env))
    ensures Refilled(k, env).conv == k.conv && Refilled(k, env).mtu == k.mtu
  {
    hide Valid, SendWindow, Probe, Wrap, TimeDiff;
    ProbedKeeps(k, env);
    WindowShrinks(k, env);
    AdmitKeeps(Probed(k, env), SendWindow(k, env.cwnd));
  }

  lemma FlushKeeps(k: Endpoint, ackOnly: bool, env: Env)
    requires Valid(k)
    ensures Valid(Flush(k, ackOnly, env).k)
  {
    if !ackOnly {
      RefilledKeeps(k, env);
      SweepKeeps(Refilled(k, env).sndBuf, FlushPass(k, env), env.clock(1), 2, Announced(k, env));
      RewriteKeeps(Refilled(k, env), Swept(k, env).0);
    }
  }

  /** Any bytes at all keep the endpoint valid. */
  lemma InputKeeps(k: Endpoint, data: seq<byte>, regular: bool, ackNoDelay: bool, env: Env)
    requires Valid(k)
    ensures Valid(Input(k, data, regular, ackNoDelay, env).k)
  {
    if |data| >= OVERHEAD {
      InputLoopKeeps(k, data, regular, false);
      var r := InputLoop(k, data, regular, false);
      FlushKeeps(r.k, false, env);
      FlushKeeps(r.k, true, env);
    }
  }
}
