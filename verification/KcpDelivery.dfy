/** The invariant that ties two KCP endpoints and the network between them together,
    and its preservation by every step either of them can take. */
module KcpDelivery {
  import opened Words
  import opened KcpWire
  import opened KcpSpec
  import opened KcpInvariant
  import opened KcpDatagram
  import opened KcpSystem

  /** The receiver has this segment for good: delivered, or waiting out of order. */
  ghost predicate Kept(k: Endpoint, sn: u32) {
    sn < k.rcvNxt || exists s :: s in k.rcvBuf && s.sn == sn
  }

  /** A segment on the wire tells the truth about the endpoint that sent it. */
  ghost predicate Legit(n: Node, s: Segment) {
    && Parsable(s, n.k.conv, n.k.Mss())
    && s.una <= n.k.rcvNxt && s.wnd <= n.k.rcvWnd
    && (s.cmd == CMD_PUSH ==> s.sn < |n.hist| && FragOf(s) == n.hist[s.sn])
    && (s.cmd == CMD_ACK ==> Kept(n.k, s.sn))
  }

  ghost predicate NetLegit(n: Node) {
    && (forall dg :: dg in n.net ==> dg != [])
    && (forall dg, i :: dg in n.net && 0 <= i < |dg| ==> Legit(n, dg[i]))
  }

  ghost predicate AcksKept(n: Node) {
    forall j :: 0 <= j < |n.k.acklist| ==> Kept(n.k, n.k.acklist[j].0)
  }

  /** A send buffer is the unreleased end of a history, data intact until acked. */
  ghost predicate Books(buf: seq<Segment>, una: int, hist: seq<Frag>) {
    && una + |buf| == |hist| && 0 <= una
    && forall i :: 0 <= i < |buf| ==>
         buf[i].sn == una + i && (buf[i].acked || FragOf(buf[i]) == hist[una + i])
  }

  ghost predicate Booked(n: Node) {
    && |n.hist| == n.k.sndNxt <= LIMIT
    && Books(n.k.sndBuf, n.k.sndUna, n.hist)
  }

  ghost predicate Sane(n: Node) {
    && Valid(n.k) && 32 <= n.k.rcvWnd <= 65535
    && Booked(n) && NetLegit(n) && AcksKept(n)
  }

  /** What the sender `s` and the receiver `r` know of each other. */
  ghost predicate Link(s: Node, r: Node) {
    && s.k.sndUna <= r.k.rcvNxt <= s.k.sndNxt <= r.k.rcvNxt + r.k.rcvWnd
    && s.k.rmtWnd <= r.k.rcvWnd
    && (forall i :: 0 <= i < |s.k.sndBuf| && s.k.sndBuf[i].acked ==> Kept(r.k, s.k.sndBuf[i].sn))
    && Stored(r, s.hist)
  }

  /** All the receiver holds or has handed out is the sender's history, in place. */
  ghost predicate Stored(r: Node, hist: seq<Frag>) {
    && r.k.rcvNxt <= |hist|
    && r.read + Frags(r.k.rcvQueue) == hist[..r.k.rcvNxt]
    && (forall x :: x in r.k.rcvBuf ==> x.sn < |hist| && FragOf(x) == hist[x.sn])
  }

  ghost predicate Pair(n: Node, p: Node) {
    && n.k.conv == p.k.conv
    && Sane(n) && Sane(p) && Link(n, p) && Link(p, n)
  }

  /** What only ever grows in an endpoint. */
  ghost predicate Advances(n: Node, n': Node) {
    && n'.k.conv == n.k.conv && n'.k.mtu == n.k.mtu && n'.k.rcvWnd == n.k.rcvWnd
    && n.k.rcvNxt <= n'.k.rcvNxt && n.hist <= n'.hist
    && (forall sn: u32 :: Kept(n.k, sn) ==> Kept(n'.k, sn))
  }

  lemma AdvancesKeepsLegit(n: Node, n': Node)
    requires NetLegit(n) && Advances(n, n') && n'.net == n.net
    ensures NetLegit(n')
  {
    forall dg, i | dg in n'.net && 0 <= i < |dg| ensures Legit(n', dg[i]) {
      assert Legit(n, dg[i]);
    }
  }

  lemma Plain(a: u32, b: int)
    requires a < TWO31 && 0 <= b < TWO31
    ensures Wrap(b) == b && TimeDiff(a, Wrap(b)) == a - b
  {
  }

  // ---- Sender role of an arriving segment ----

  /** A change on the sending side leaves what the endpoint receives and has promised. */
  ghost predicate SameReceiver(n: Node, n': Node) {
    && n'.k == n.k.(sndUna := n'.k.sndUna, sndNxt := n'.k.sndNxt, rmtWnd := n'.k.rmtWnd,
                    sndQueue := n'.k.sndQueue, sndBuf := n'.k.sndBuf, askTell := n'.k.askTell)
    && n'.net == n.net && n'.read == n.read && n'.hist == n.hist
  }

  lemma SenderChange(n: Node, p: Node, n': Node)
    requires Pair(n, p) && SameReceiver(n, n') && Valid(n'.k) && Booked(n') && Link(n', p)
    ensures Pair(n', p)
  {
    AdvancesKeepsLegit(n, n');
  }

  /** Dropping below a truthful `una` releases only what the peer has delivered. */
  lemma BooksDrop(buf: seq<Segment>, from: int, hist: seq<Frag>, una: u32) returns (d: nat)
    requires Books(buf, from, hist) && |hist| <= LIMIT && una <= |hist|
    ensures d <= |buf| && DropBelow(buf, una) == buf[d..] && Books(buf[d..], from + d, hist)
    ensures from + d <= Max(from, una)
  {
    var r := DropBelow(buf, una);
    DropBelowIsSuffix(buf, una);
    d := |buf| - |r|;
    if d > 0 {
      Plain(una, buf[d - 1].sn);
    }
  }

  lemma AcknowledgePair(n: Node, p: Node, una: u32)
    requires Pair(n, p) && una <= p.k.rcvNxt
    ensures Pair(n.(k := Acknowledge(n.k, una)), p)
  {
    hide NetLegit, AcksKept, Stored, Kept;
    var d := BooksDrop(n.k.sndBuf, n.k.sndUna, n.hist, una);
    AcknowledgeKeeps(n.k, una);
    var n' := n.(k := Acknowledge(n.k, una));
    assert Booked(n');
    assert Link(n', p);
    SenderChange(n, p, n');
  }

  lemma WindowPair(n: Node, p: Node, wnd: u16)
    requires Pair(n, p) && wnd <= p.k.rcvWnd
    ensures Pair(n.(k := n.k.(rmtWnd := wnd)), p)
  {
    SenderChange(n, p, n.(k := n.k.(rmtWnd := wnd)));
  }

  /** Marking one number acked; the rest of the buffer keeps its flags and data. */
  lemma ParseAckMarks(k: Endpoint, sn: u32, ts: u32)
    ensures var buf := ParseAck(k, sn, ts).sndBuf;
            |buf| == |k.sndBuf| && forall i :: 0 <= i < |buf| ==>
              && buf[i].sn == k.sndBuf[i].sn
              && (buf[i].acked ==> k.sndBuf[i].acked || buf[i].sn == sn)
              && (!buf[i].acked ==> !k.sndBuf[i].acked && FragOf(buf[i]) == FragOf(k.sndBuf[i]))
  {
  }

  lemma ParseAckPair(n: Node, p: Node, sn: u32, ts: u32)
    requires Pair(n, p) && Kept(p.k, sn)
    ensures Pair(n.(k := ParseAck(n.k, sn, ts)), p)
  {
    ParseAckKeeps(n.k, sn, ts);
    ParseAckMarks(n.k, sn, ts);
    SenderChange(n, p, n.(k := n.k.(sndBuf := ParseAck(n.k, sn, ts).sndBuf)));
  }

  lemma AskPair(n: Node, p: Node)
    requires Pair(n, p)
    ensures Pair(n.(k := n.k.(askTell := true)), p)
  {
    SenderChange(n, p, n.(k := n.k.(askTell := true)));
  }

  // ---- Receiver role of an arriving segment ----

  lemma MoveFirstStores(r: Node, hist: seq<Frag>)
    requires Stored(r, hist) && |hist| < TWO31 && CanMove(r.k)
    ensures Stored(r.(k := MoveFirst(r.k)), hist) && r.k.rcvNxt < MoveFirst(r.k).rcvNxt
    ensures forall sn: u32 :: Kept(r.k, sn) ==> Kept(MoveFirst(r.k), sn)
  {
    var k, k1 := r.k, MoveFirst(r.k);
    var first := k.rcvBuf[0];
    assert first in k.rcvBuf;
    assert r.read + Frags(k1.rcvQueue) == (r.read + Frags(k.rcvQueue)) + [FragOf(first)];
    assert hist[..k.rcvNxt + 1] == hist[..k.rcvNxt] + [hist[k.rcvNxt]];
    forall sn: u32 | Kept(k, sn) ensures Kept(k1, sn) {
      if sn >= k1.rcvNxt {
        var s :| s in k.rcvBuf && s.sn == sn;
        assert s in k1.rcvBuf;
      }
    }
  }

  lemma {:induction false} MoveReadyStores(r: Node, hist: seq<Frag>)
    requires Stored(r, hist) && |hist| < TWO31
    ensures var r' := r.(k := MoveReady(r.k));
            && Stored(r', hist)
            && r.k.rcvNxt <= r'.k.rcvNxt
            && forall sn: u32 :: Kept(r.k, sn) ==> Kept(r'.k, sn)
    decreases |r.k.rcvBuf|
  {
    MoveReadyStep(r.k);
    hide MoveReady, Stored, Kept;
    if CanMove(r.k) {
      MoveFirstStores(r, hist);
      MoveReadyStores(r.(k := MoveFirst(r.k)), hist);
    }
  }

  lemma InsertStores(r: Node, hist: seq<Frag>, seg: Segment, acks: seq<(u32, u32)>)
    requires Stored(r, hist) && Valid(r.k)
    requires seg.sn < |hist| && FragOf(seg) == hist[seg.sn] && Offset(seg.sn, r.k.rcvNxt) < r.k.rcvWnd
    ensures var r' := r.(k := r.k.(acklist := acks, rcvBuf := Insert(r.k.rcvBuf, seg)));
            && Stored(r', hist) && Kept(r'.k, seg.sn)
            && forall sn: u32 :: Kept(r.k, sn) ==> Kept(r'.k, sn)
  {
    InsertKeeps(r.k.rcvBuf, seg, r.k.rcvNxt, r.k.rcvWnd);
    var k1 := r.k.(acklist := acks, rcvBuf := Insert(r.k.rcvBuf, seg));
    forall sn: u32 | Kept(r.k, sn) ensures Kept(k1, sn) {
      if sn >= r.k.rcvNxt {
        var s :| s in r.k.rcvBuf && s.sn == sn;
        assert s in k1.rcvBuf;
      }
    }
  }

  /** The receiving side after a data segment: still the sender's history, all of it
      kept that was, and every number on the acknowledgement list kept. */
  ghost predicate Received(n: Node, n': Node, hist: seq<Frag>) {
    Stored(n', hist) && Advances(n, n') && AcksKept(n')
  }

  lemma KeptAcks(n: Node, n': Node, sn: u32, ts: u32)
    requires AcksKept(n) && Advances(n, n') && Kept(n'.k, sn)
    requires n'.k.acklist == n.k.acklist + [(sn, ts)]
    ensures AcksKept(n')
  {
    hide Kept;
    forall j | 0 <= j < |n'.k.acklist| ensures Kept(n'.k, n'.k.acklist[j].0) {
      if j < |n.k.acklist| {
        assert n'.k.acklist[j] == n.k.acklist[j];
      }
    }
  }

  /** A data segment inside the window is kept, and so may be acknowledged. */
  lemma WindowedPush(n: Node, hist: seq<Frag>, seg: Segment)
    requires Valid(n.k) && Stored(n, hist) && AcksKept(n) && |hist| < TWO31
    requires seg.sn < |hist| && FragOf(seg) == hist[seg.sn] && Offset(seg.sn, n.k.rcvNxt) < n.k.rcvWnd
    ensures Received(n, n.(k := MoveReady(n.k.(acklist := n.k.acklist + [(seg.sn, seg.ts)],
                                               rcvBuf := Insert(n.k.rcvBuf, seg)))), hist)
  {
    var acks := n.k.acklist + [(seg.sn, seg.ts)];
    var n1 := n.(k := n.k.(acklist := acks, rcvBuf := Insert(n.k.rcvBuf, seg)));
    var n' := n.(k := MoveReady(n1.k));
    InsertStores(n, hist, seg, acks);
    MoveReadyStores(n1, hist);
    assert n'.k == n1.k.(rcvBuf := n'.k.rcvBuf, rcvQueue := n'.k.rcvQueue, rcvNxt := n'.k.rcvNxt);
    hide Valid, Stored, MoveReady, Insert, Kept;
    assert Advances(n, n');
    KeptAcks(n, n', seg.sn, seg.ts);
  }

  /** A segment already delivered is acknowledged again. */
  lemma OldPush(n: Node, hist: seq<Frag>, seg: Segment)
    requires Stored(n, hist) && AcksKept(n) && seg.sn < n.k.rcvNxt
    ensures Received(n, n.(k := n.k.(acklist := n.k.acklist + [(seg.sn, seg.ts)])), hist)
  {
    KeptAcks(n, n.(k := n.k.(acklist := n.k.acklist + [(seg.sn, seg.ts)])), seg.sn, seg.ts);
  }

  lemma ReceivedSame(n: Node, hist: seq<Frag>)
    requires Stored(n, hist) && AcksKept(n)
    ensures Received(n, n, hist)
  {
  }

  ghost predicate InHistory(seg: Segment, hist: seq<Frag>) {
    seg.sn < |hist| <= LIMIT && FragOf(seg) == hist[seg.sn]
  }

  lemma PushOld(n: Node, hist: seq<Frag>, seg: Segment)
    requires Stored(n, hist) && AcksKept(n) && InHistory(seg, hist)
    requires TimeDiff(seg.sn, Wrap(n.k.rcvNxt + n.k.rcvWnd)) < 0 && TimeDiff(seg.sn, n.k.rcvNxt) < 0
    ensures Received(n, n.(k := ParsePush(n.k, seg)), hist)
  {
    Plain(seg.sn, n.k.rcvNxt);
    hide Wrap, TimeDiff, Received;
    OldPush(n, hist, seg);
  }

  lemma PushNew(n: Node, hist: seq<Frag>, seg: Segment)
    requires Valid(n.k) && Stored(n, hist) && AcksKept(n) && InHistory(seg, hist)
    requires TimeDiff(seg.sn, Wrap(n.k.rcvNxt + n.k.rcvWnd)) < 0 && TimeDiff(seg.sn, n.k.rcvNxt) >= 0
    ensures Received(n, n.(k := ParsePush(n.k, seg)), hist)
  {
    WindowTest(seg.sn, n.k.rcvNxt, n.k.rcvWnd);
    hide Wrap, TimeDiff, Received, Valid, Stored, AcksKept, MoveReady, Insert, Offset;
    WindowedPush(n, hist, seg);
  }

  /** Any data segment that is part of the sender's history does no harm. */
  lemma PushReceived(n: Node, hist: seq<Frag>, seg: Segment)
    requires Valid(n.k) && Stored(n, hist) && AcksKept(n) && InHistory(seg, hist)
    ensures Received(n, n.(k := ParsePush(n.k, seg)), hist)
  {
    hide Wrap, TimeDiff, Received, Valid, Stored, AcksKept, InHistory;
    if TimeDiff(seg.sn, Wrap(n.k.rcvNxt + n.k.rcvWnd)) >= 0 {
      ReceivedSame(n, hist);
    } else if TimeDiff(seg.sn, n.k.rcvNxt) < 0 {
      PushOld(n, hist, seg);
    } else {
      PushNew(n, hist, seg);
    }
  }

  /** A change on the receiving side, with what the reader took, leaves the sending side. */
  lemma ReceiverChange(n: Node, p: Node, n': Node)
    requires Pair(n, p) && n'.net == n.net && n'.hist == n.hist
    requires n'.k == n.k.(rcvNxt := n'.k.rcvNxt, rcvQueue := n'.k.rcvQueue, rcvBuf := n'.k.rcvBuf,
                          acklist := n'.k.acklist, askTell := n'.k.askTell)
    requires Valid(n'.k) && Received(n, n', p.hist)
    ensures Pair(n', p)
  {
    AdvancesKeepsLegit(n, n');
    assert Booked(n');
  }

  lemma ParsePushPair(n: Node, p: Node, seg: Segment)
    requires Pair(n, p) && Legit(p, seg) && seg.cmd == CMD_PUSH
    ensures Pair(n.(k := ParsePush(n.k, seg)), p)
  {
    ParsePushKeeps(n.k, seg);
    PushReceived(n, p.hist, seg);
    hide Valid, Received, NetLegit, AcksKept, Stored, MoveReady;
    ReceiverChange(n, p, n.(k := ParsePush(n.k, seg)));
  }

  lemma ProcessPair(n: Node, p: Node, seg: Segment, regular: bool)
    requires Pair(n, p) && Legit(p, seg)
    ensures Pair(n.(k := Process(n.k, seg, regular)), p)
  {
    var n0 := if regular then n.(k := n.k.(rmtWnd := seg.wnd)) else n;
    WindowPair(n, p, seg.wnd);
    AcknowledgePair(n0, p, seg.una);
    var n1 := n0.(k := Acknowledge(n0.k, seg.una));
    if seg.cmd == CMD_ACK {
      ParseAckPair(n1, p, seg.sn, seg.ts);
    } else if seg.cmd == CMD_PUSH {
      ParsePushPair(n1, p, seg);
    } else if seg.cmd == CMD_WASK {
      AskPair(n1, p);
    }
  }

  lemma {:induction false} ProcessAllPair(n: Node, p: Node, dg: seq<Segment>, regular: bool, slides: bool)
    requires Pair(n, p) && forall i :: 0 <= i < |dg| ==> Legit(p, dg[i])
    ensures Pair(n.(k := ProcessAll(n.k, dg, regular, slides).k), p)
    ensures ProcessAll(n.k, dg, regular, slides).k.sndQueue == n.k.sndQueue
    decreases |dg|
  {
    if dg != [] {
      ProcessPair(n, p, dg[0], regular);
      var n1 := n.(k := Process(n.k, dg[0], regular));
      ProcessAllPair(n1, p, dg[1..], regular, slides || Slides(n.k, dg[0].una));
      ProcessFrame(n.k, dg[0], regular);
    }
  }
}
