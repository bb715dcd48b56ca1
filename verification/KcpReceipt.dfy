/** What one received segment does to an endpoint, and what `recv` then hands out, told by
    numbers and positions and not by the steps of the code. */
module KcpReceipt {
  import opened Words
  import opened KcpWire
  import opened KcpSpec
  import opened KcpInvariant
  import opened KcpDatagram

  // ---- Data ----

  /** The segments waiting out of order, and the new one if its number is not among them, are
      now in the queue as far as they follow on, and waiting otherwise. */
  ghost predicate Sorted(q: seq<Segment>, buf: seq<Segment>, nxt: u32, seg: Segment,
                         q': seq<Segment>, buf': seq<Segment>, nxt': u32)
  {
    && q <= q' && Numbered(q'[|q|..], nxt, nxt')
    && (forall s :: s in q'[|q|..] || s in buf' <==> s in buf || (s == seg && !Holds(buf, seg.sn)))
  }

  ghost predicate Took(k: Endpoint, seg: Segment, k': Endpoint) {
    Sorted(k.rcvQueue, k.rcvBuf, k.rcvNxt, seg, k'.rcvQueue, k'.rcvBuf, k'.rcvNxt)
  }

  ghost predicate Holds(buf: seq<Segment>, sn: u32) {
    exists s :: s in buf && s.sn == sn
  }

  lemma {:induction false} ReadyNumbers(buf: seq<Segment>, nxt: u32, room: nat, i: nat)
    requires i < ReadyCount(buf, nxt, room)
    ensures buf[i].sn == Wrap(nxt + i)
  {
    if i == 0 {
      WrapSmall(nxt);
    } else {
      ReadyNumbers(buf[1..], Wrap(nxt + 1), room - 1, i - 1);
      WrapSum(nxt + 1, i - 1);
    }
  }

  lemma InsertHolds(buf: seq<Segment>, seg: Segment, from: u32, wnd: int, s: Segment)
    requires wnd < TWO31 && Windowed(buf, from, wnd) && Offset(seg.sn, from) < wnd
    ensures s in Insert(buf, seg) <==> s in buf || (s == seg && !Holds(buf, seg.sn))
  {
    InsertKeeps(buf, seg, from, wnd);
    if t :| t in buf && t.sn == seg.sn {
      InsertKnown(buf, seg, from, wnd, t);
    }
  }

  /** A buffer cut where its ready part ends. */
  lemma CutAtReady(q: seq<Segment>, buf: seq<Segment>, nxt: u32, seg: Segment, r: seq<Segment>, room: nat)
    requires forall s :: s in r <==> s in buf || (s == seg && !Holds(buf, seg.sn))
    ensures var n := ReadyCount(r, nxt, room); Sorted(q, buf, nxt, seg, q + r[..n], r[n..], Wrap(nxt + n))
  {
    hide Wrap, ReadyCount, Holds;
    var n := ReadyCount(r, nxt, room);
    assert (q + r[..n])[|q|..] == r[..n];
    forall i | 0 <= i < n ensures r[..n][i].sn == Wrap(nxt + i) {
      ReadyNumbers(r, nxt, room, i);
    }
    forall s ensures s in r[..n] || s in r[n..] <==> s in r {
      assert r[..n] + r[n..] == r;
      assert s in r <==> s in r[..n] + r[n..];
    }
  }

  /** `seg` put in its place and what is ready moved up. */
  lemma InsertMoves(k: Endpoint, seg: Segment)
    requires Valid(k) && Offset(seg.sn, k.rcvNxt) < k.rcvWnd
    ensures Took(k, seg, MoveReady(k.(rcvBuf := Insert(k.rcvBuf, seg))))
  {
    hide Wrap, Insert, ReadyCount, Offset, Sorted;
    var buf := Insert(k.rcvBuf, seg);
    forall s ensures s in buf <==> s in k.rcvBuf || (s == seg && !Holds(k.rcvBuf, seg.sn)) {
      InsertHolds(k.rcvBuf, seg, k.rcvNxt, k.rcvWnd, s);
    }
    CutAtReady(k.rcvQueue, k.rcvBuf, k.rcvNxt, seg, buf, Max(0, k.rcvWnd - |k.rcvQueue|));
  }

  lemma ParsePushIs(k: Endpoint, seg: Segment)
    requires TimeDiff(seg.sn, Wrap(k.rcvNxt + k.rcvWnd)) < 0 && TimeDiff(seg.sn, k.rcvNxt) >= 0
    ensures var m := MoveReady(k.(rcvBuf := Insert(k.rcvBuf, seg)));
            && ParsePush(k, seg) == m.(acklist := k.acklist + [(seg.sn, seg.ts)])
            && m == k.(rcvBuf := m.rcvBuf, rcvQueue := m.rcvQueue, rcvNxt := m.rcvNxt)
  {
    hide Wrap, TimeDiff, Insert, ReadyCount;
  }

  /** The header of a segment touches nothing of the receiving side. */
  lemma HeaderReceives(k: Endpoint, seg: Segment, regular: bool)
    ensures var k1 := Acknowledge(if regular then k.(rmtWnd := seg.wnd) else k, seg.una);
            k1 == k.(sndBuf := k1.sndBuf, sndUna := k1.sndUna, rmtWnd := if regular then seg.wnd else k.rmtWnd)
  {
  }

  /** A data segment inside the window is acknowledged and kept, once; it is queued at once
      if it is the next one and the queue has room. */
  lemma PushTaken(k: Endpoint, seg: Segment, regular: bool)
    requires Valid(k) && seg.cmd == CMD_PUSH && Offset(seg.sn, k.rcvNxt) < k.rcvWnd
    ensures var k' := Process(k, seg, regular);
            && k'.acklist == k.acklist + [(seg.sn, seg.ts)]
            && Took(k, seg, k') && Settled(k') && Windowed(k'.rcvBuf, k'.rcvNxt, k'.rcvWnd)
            && (seg.sn == k.rcvNxt && |k.rcvQueue| < k.rcvWnd ==>
                  |k.rcvQueue| < |k'.rcvQueue| && k'.rcvQueue[|k.rcvQueue|] == seg)
  {
    hide Wrap, TimeDiff, Insert, MoveReady, ParsePush, Acknowledge, Sorted, Offset, Valid;
    var k1 := Acknowledge(if regular then k.(rmtWnd := seg.wnd) else k, seg.una);
    HeaderReceives(k, seg, regular);
    HeaderKeeps(k, seg, regular);
    WindowTest(seg.sn, k.rcvNxt, k.rcvWnd);
    InsertMoves(k1, seg);
    ParsePushKeeps(k1, seg);
    ParsePushIs(k1, seg);
    ValidReceives(ParsePush(k1, seg));
    if seg.sn == k.rcvNxt && |k.rcvQueue| < k.rcvWnd {
      NextIsQueued(k, seg, ParsePush(k1, seg));
    }
  }

  lemma ValidReceives(k: Endpoint)
    requires Valid(k)
    ensures Settled(k) && Windowed(k.rcvBuf, k.rcvNxt, k.rcvWnd)
  {
  }

  lemma HeaderKeeps(k: Endpoint, seg: Segment, regular: bool)
    requires Valid(k)
    ensures Valid(Acknowledge(if regular then k.(rmtWnd := seg.wnd) else k, seg.una))
  {
    hide Acknowledge;
    AcknowledgeKeeps(if regular then k.(rmtWnd := seg.wnd) else k, seg.una);
  }

  lemma NextIsQueued(k: Endpoint, seg: Segment, k': Endpoint)
    requires Valid(k) && Valid(k') && k'.rcvWnd == k.rcvWnd
    requires Took(k, seg, k') && seg.sn == k.rcvNxt && |k.rcvQueue| < k.rcvWnd
    ensures |k.rcvQueue| < |k'.rcvQueue| && k'.rcvQueue[|k.rcvQueue|] == seg
  {
    NothingNext(k);
    if |k'.rcvQueue| == |k.rcvQueue| {
      WrapSmall(k.rcvNxt);
      assert seg in k'.rcvBuf;
      NothingNext(k');
    } else {
      var first := k'.rcvQueue[|k.rcvQueue|];
      WrapSmall(k.rcvNxt);
      assert first == k'.rcvQueue[|k.rcvQueue|..][0];
    }
  }

  /** With room in the queue, the next segment is not among those waiting. */
  lemma NothingNext(k: Endpoint)
    requires Valid(k) && |k.rcvQueue| < k.rcvWnd
    ensures !Holds(k.rcvBuf, k.rcvNxt)
  {
    var buf := k.rcvBuf;
    forall i | 0 <= i < |buf| ensures buf[i].sn != k.rcvNxt {
      assert i > 0 ==> Offset(buf[0].sn, k.rcvNxt) < Offset(buf[i].sn, k.rcvNxt);
    }
  }

  /** Outside the window nothing is kept; what lies up to 2^31 ahead is not acknowledged, and
      all the rest is old and acknowledged again. */
  lemma PushRefused(k: Endpoint, seg: Segment, regular: bool)
    requires seg.cmd == CMD_PUSH && Offset(seg.sn, k.rcvNxt) >= k.rcvWnd
    ensures var k' := Process(k, seg, regular);
            && k'.rcvQueue == k.rcvQueue && k'.rcvBuf == k.rcvBuf && k'.rcvNxt == k.rcvNxt
            && k'.acklist == k.acklist
                 + (if Offset(seg.sn, k.rcvNxt) - k.rcvWnd < TWO31 then [] else [(seg.sn, seg.ts)])
  {
    hide Wrap, TimeDiff, Insert, MoveReady, Acknowledge, Offset;
    HeaderReceives(k, seg, regular);
    FarSide(seg.sn, k.rcvNxt, k.rcvWnd);
    assert k.acklist + [] == k.acklist;
  }

  lemma FarSide(sn: u32, from: u32, wnd: u32)
    requires 0 < wnd < TWO31 && Offset(sn, from) >= wnd
    ensures TimeDiff(sn, Wrap(from + wnd)) >= 0 <==> Offset(sn, from) - wnd < TWO31
    ensures Offset(sn, from) - wnd >= TWO31 ==> TimeDiff(sn, from) < 0
  {
    hide Wrap;
    var d := Offset(sn, from);
    WrapSum(sn - from, from);
    WrapSmall(sn);
    WrapSmall(from);
    if d - wnd < TWO31 {
      TimeDiffIsOffset(from + d, from + wnd);
    } else {
      WrapShift(from + d, -1);
      TimeDiffIsOffset(from + d - TWO32, from + wnd);
      TimeDiffIsOffset(from + d - TWO32, from);
    }
  }

  /** Every other command leaves the receiving side alone; only a window question is noted. */
  lemma OthersReceive(k: Endpoint, seg: Segment, regular: bool)
    requires seg.cmd != CMD_PUSH
    ensures var k' := Process(k, seg, regular);
            && k'.rcvQueue == k.rcvQueue && k'.rcvBuf == k.rcvBuf && k'.rcvNxt == k.rcvNxt
            && k'.acklist == k.acklist && k'.askTell == (k.askTell || seg.cmd == CMD_WASK)
  {
    hide Acknowledge, InFlight;
    HeaderReceives(k, seg, regular);
  }

  // ---- Acknowledgements ----

  /** How many of `size` numbers from `from` on lie below `una`. */
  function Below(una: u32, from: u32, size: nat): (n: nat)
    ensures n <= size
  {
    if Offset(una, from) < TWO31 then Min(Offset(una, from), size) else 0
  }

  /** How many buffered segments a cumulative acknowledgement releases. */
  function Released(k: Endpoint, una: u32): (n: nat)
    ensures n <= |k.sndBuf|
  {
    Below(una, k.sndUna, |k.sndBuf|)
  }

  lemma {:induction false} DropCounts(buf: seq<Segment>, from: u32, nxt: u32, una: u32)
    requires Numbered(buf, from, nxt) && |buf| < TWO31
    ensures DropBelow(buf, una) == buf[Below(una, from, |buf|)..]
  {
    hide Wrap, TimeDiff, Offset;
    if buf != [] {
      WrapSmall(from);
      Ahead(una, from);
      NumberedSuffix(buf, from, nxt, 1);
      DropCounts(buf[1..], Wrap(from + 1), nxt, una);
      hide DropBelow;
      DropFirst(buf, una);
      if TimeDiff(una, from) > 0 {
        OffsetLess(una, from);
        var o := Offset(una, from);
        assert buf[1..][Min(o - 1, |buf| - 1)..] == buf[Min(o, |buf|)..];
      }
    } else {
      DropFirst(buf, una);
    }
  }

  lemma DropFirst(buf: seq<Segment>, una: u32)
    ensures buf == [] ==> DropBelow(buf, una) == buf
    ensures buf != [] ==>
              DropBelow(buf, una) == if TimeDiff(una, buf[0].sn) > 0 then DropBelow(buf[1..], una) else buf[0..]
  {
  }

  lemma Ahead(una: u32, from: u32)
    ensures TimeDiff(una, from) > 0 <==> 0 < Offset(una, from) < TWO31
  {
  }

  lemma OffsetLess(una: u32, from: u32)
    requires una != from || Offset(una, from) > 0
    ensures Offset(una, Wrap(from + 1)) == Offset(una, from) - 1
  {
  }

  /** What the header of any segment does to the sending side: the advertised window is
      taken over, and the segments below `una`, by number, are released. */
  lemma UnaTaken(k: Endpoint, seg: Segment, regular: bool)
    requires Valid(k)
    ensures var k1 := Acknowledge(if regular then k.(rmtWnd := seg.wnd) else k, seg.una);
            var n := Released(k, seg.una);
            && k1.sndBuf == k.sndBuf[n..] && k1.sndUna == Wrap(k.sndUna + n)
            && k1.rmtWnd == (if regular then seg.wnd else k.rmtWnd)
  {
    hide Wrap, Below, Acknowledge, DropBelow, Valid, Numbered;
    ValidSends(k);
    DropCounts(k.sndBuf, k.sndUna, k.sndNxt, seg.una);
    var r := if regular then k.(rmtWnd := seg.wnd) else k;
    HeaderReceives(k, seg, regular);
    AcknowledgeIs(r, seg.una);
    SameValid(k, r);
    AcknowledgeKeeps(r, seg.una);
  }

  lemma ValidSends(k: Endpoint)
    requires Valid(k)
    ensures Numbered(k.sndBuf, k.sndUna, k.sndNxt) && |k.sndBuf| < TWO31
  {
  }

  lemma SameValid(k: Endpoint, r: Endpoint)
    requires Valid(k) && r == k.(rmtWnd := r.rmtWnd)
    ensures Valid(r)
  {
  }

  lemma AcknowledgeIs(k: Endpoint, una: u32)
    ensures Acknowledge(k, una).sndBuf == DropBelow(k.sndBuf, una)
  {
  }

  /** A segment that is not an ACK does nothing more to the sending side. */
  lemma NonAckSends(k: Endpoint, seg: Segment, regular: bool)
    requires Valid(k) && seg.cmd != CMD_ACK
    ensures var k', n := Process(k, seg, regular), Released(k, seg.una);
            && k'.sndBuf == k.sndBuf[n..] && k'.sndUna == Wrap(k.sndUna + n)
            && k'.sndNxt == k.sndNxt && k'.sndQueue == k.sndQueue
            && k'.rmtWnd == (if regular then seg.wnd else k.rmtWnd)
  {
    hide Wrap, Offset, Acknowledge, TimeDiff, Insert, ReadyCount, Released;
    UnaTaken(k, seg, regular);
    HeaderReceives(k, seg, regular);
  }

  /** An ACK marks the one buffered segment it names and frees its data, and counts once
      against every segment before it that was sent no later than the one it answers. */
  lemma AckTaken(k: Endpoint, seg: Segment, regular: bool)
    requires Valid(k) && seg.cmd == CMD_ACK
    ensures var k', n := Process(k, seg, regular), Released(k, seg.una);
            var rest, o := k.sndBuf[n..], Offset(seg.sn, Wrap(k.sndUna + n));
            && k'.sndUna == Wrap(k.sndUna + n) && k'.sndNxt == k.sndNxt && k'.sndQueue == k.sndQueue
            && k'.rmtWnd == (if regular then seg.wnd else k.rmtWnd)
            && |k'.sndBuf| == |rest|
            && forall i :: 0 <= i < |rest| ==>
                 k'.sndBuf[i] ==
                   if i == o then rest[i].(acked := true, data := [])
                   else if i < o < |rest| && TimeDiff(rest[i].ts, seg.ts) <= 0
                   then rest[i].(fastack := Wrap(rest[i].fastack + 1)) else rest[i]
  {
    hide Wrap, Offset, Acknowledge, TimeDiff, Released, InFlight;
    UnaTaken(k, seg, regular);
    HeaderReceives(k, seg, regular);
    HeaderKeeps(k, seg, regular);
    var k1 := Acknowledge(if regular then k.(rmtWnd := seg.wnd) else k, seg.una);
    FlightTest(k1, seg.sn);
    if InFlight(k1, seg.sn) {
      forall i | 0 <= i < |k1.sndBuf|
        ensures TimeDiff(seg.sn, k1.sndBuf[i].sn) == Offset(seg.sn, k1.sndUna) - i
        ensures seg.sn == k1.sndBuf[i].sn <==> Offset(seg.sn, k1.sndUna) == i
      {
        NumberedOrder(k1.sndBuf, k1.sndUna, k1.sndNxt, seg.sn, i);
      }
    }
  }

  lemma FlightTest(k: Endpoint, sn: u32)
    requires Numbered(k.sndBuf, k.sndUna, k.sndNxt) && |k.sndBuf| < TWO31
    ensures InFlight(k, sn) <==> Offset(sn, k.sndUna) < |k.sndBuf|
  {
    hide TimeDiff, Offset, Wrap;
    if k.sndBuf == [] {
      WrapSmall(k.sndUna);
    } else {
      WindowTest(sn, k.sndUna, |k.sndBuf|);
    }
  }

  /** Nothing else about the endpoint changes. */
  lemma ProcessFrames(k: Endpoint, seg: Segment, regular: bool)
    ensures var k' := Process(k, seg, regular);
            k' == k.(sndBuf := k'.sndBuf, sndUna := k'.sndUna, rmtWnd := k'.rmtWnd, rcvBuf := k'.rcvBuf,
                     rcvQueue := k'.rcvQueue, rcvNxt := k'.rcvNxt, acklist := k'.acklist,
                     askTell := k.askTell || seg.cmd == CMD_WASK)
  {
    hide Wrap, TimeDiff, ParsePush, Acknowledge, InFlight;
    HeaderReceives(k, seg, regular);
    PushFrames(Acknowledge(if regular then k.(rmtWnd := seg.wnd) else k, seg.una), seg);
  }

  lemma PushFrames(k: Endpoint, seg: Segment)
    ensures var k' := ParsePush(k, seg);
            k' == k.(rcvBuf := k'.rcvBuf, rcvQueue := k'.rcvQueue, rcvNxt := k'.rcvNxt, acklist := k'.acklist)
  {
    hide Wrap, TimeDiff, Insert, ReadyCount;
  }

  // ---- Whole datagrams ----

  /** A segment slides the window exactly if it releases something. */
  lemma SlidesIsRelease(k: Endpoint, una: u32)
    requires Valid(k)
    ensures Slides(k, una) <==> Released(k, una) > 0
  {
    if k.sndBuf != [] {
      WrapSmall(k.sndUna);
      Ahead(una, k.sndBuf[0].sn);
    }
  }

  /** Why a datagram's bytes from some point on are refused: another conversation, cut off,
      or an unknown command, in this order; fewer bytes than a header are ignored. */
  function Refusal(conv: u32, tail: seq<byte>): (code: int)
    ensures -3 <= code <= 0
  {
    if |tail| < OVERHEAD then 0
    else if HeadOf(tail).conv != conv then -1
    else if |tail| - OVERHEAD < LengthOf(tail) then -2
    else if HeadOf(tail).cmd !in {CMD_PUSH, CMD_ACK, CMD_WASK, CMD_WINS} then -3
    else 0
  }

  lemma {:induction false} LoopStops(k: Endpoint, dg: seq<Segment>, tail: seq<byte>, mss: int, regular: bool,
                                     slides: bool)
    requires mss < TWO32 && forall i :: 0 <= i < |dg| ==> Parsable(dg[i], k.conv, mss)
    requires |tail| < OVERHEAD || Refusal(k.conv, tail) != 0
    ensures Sized(dg)
    ensures InputLoop(k, EncodeAll(dg) + tail, regular, slides)
         == ProcessAll(k, dg, regular, slides).(code := Refusal(k.conv, tail))
    decreases |dg|
  {
    assert Sized(dg);
    if dg == [] {
      assert EncodeAll(dg) + tail == tail;
      hide HeadOf, LengthOf, Process;
    } else {
      hide HeadOf, LengthOf, Process, Wire;
      var rest := dg[1..];
      assert Sized(rest);
      assert EncodeAll(dg) + tail == Wire(dg[0]) + (EncodeAll(rest) + tail);
      DecodeEncode(dg[0], EncodeAll(rest) + tail);
      ProcessFrame(k, dg[0], regular);
      LoopStops(Process(k, dg[0], regular), rest, tail, mss, regular, slides || Slides(k, dg[0].una));
    }
  }

  /** What a datagram that parses leads to once its segments are taken: a full flush if one
      of them released something, an ACK flush if that was asked for and there is something
      to acknowledge, and nothing otherwise. Fewer bytes than a header behind it do not count. */
  lemma InputAnswers(k: Endpoint, dg: seq<Segment>, tail: seq<byte>, mss: int, regular: bool, ackNoDelay: bool,
                     env: Env)
    requires dg != [] && |tail| < OVERHEAD
    requires mss < TWO32 && forall i :: 0 <= i < |dg| ==> Parsable(dg[i], k.conv, mss)
    ensures Sized(dg)
    ensures var r := ProcessAll(k, dg, regular, false);
            Input(k, EncodeAll(dg) + tail, regular, ackNoDelay, env)
              == if r.slides then Flush(r.k, false, env)
                 else if ackNoDelay && r.k.acklist != [] then Flush(r.k, true, env)
                 else Outcome(r.k, 0, [])
  {
    hide ProcessAll, InputLoop, Flush;
    LoopStops(k, dg, tail, mss, regular, false);
    InputLoopParses(k, dg, mss, regular, false);
    EncodeAllSize(dg);
  }

  /** Segments before a malformed one keep their effect, the call returns its code and
      answers nothing; a datagram shorter than a header is refused with -1. */
  lemma InputRefuses(k: Endpoint, dg: seq<Segment>, tail: seq<byte>, mss: int, regular: bool, ackNoDelay: bool,
                     env: Env)
    requires mss < TWO32 && forall i :: 0 <= i < |dg| ==> Parsable(dg[i], k.conv, mss)
    requires Refusal(k.conv, tail) != 0
    ensures Sized(dg)
    ensures Input(k, EncodeAll(dg) + tail, regular, ackNoDelay, env)
         == Outcome(ProcessAll(k, dg, regular, false).k, Refusal(k.conv, tail), [])
    ensures |tail| >= OVERHEAD && forall data :: |data| < OVERHEAD ==>
              Input(k, data, regular, ackNoDelay, env) == Outcome(k, -1, [])
  {
    hide ProcessAll, InputLoop, Flush;
    LoopStops(k, dg, tail, mss, regular, false);
  }

  // ---- Receiving ----

  /** The first `n` queued segments are what `recv` takes for a message: up to the first
      that is the last fragment, with as many behind the first as its id announces. */
  ghost predicate Front(q: seq<Segment>, n: nat) {
    && 0 < n <= |q| && q[0].frg < |q|
    && (forall i :: 0 <= i < n - 1 ==> q[i].frg != 0)
    && (q[n - 1].frg == 0 || n == |q|)
  }

  lemma {:induction false} FrontLength(q: seq<Segment>, n: nat)
    requires 0 < n <= |q| && (forall i :: 0 <= i < n - 1 ==> q[i].frg != 0) && (q[n - 1].frg == 0 || n == |q|)
    ensures MessageLength(q) == n
  {
    if n > 1 {
      FrontLength(q[1..], n - 1);
    } else if q[0].frg != 0 {
      assert q[1..] == [];
    }
  }

  /** `recv` with a message in front: -2 and nothing done if it does not fit; otherwise all
      of its bytes, what was waiting moved up as far as it follows on and there is room, and
      the peer told if a full queue has room again. */
  lemma RecvTakes(k: Endpoint, n: nat, capacity: nat)
    requires Valid(k) && Front(k.rcvQueue, n) && |Bytes(k.rcvQueue[..n])| < TWO31
    ensures var r, q, size := Recv(k, capacity), k.rcvQueue[n..], |Bytes(k.rcvQueue[..n])|;
            if size > capacity then r == Received(k, -2, [])
            else
              && r.code == size && r.data == Bytes(k.rcvQueue[..n])
              && q <= r.k.rcvQueue && r.k.rcvQueue[|q|..] + r.k.rcvBuf == k.rcvBuf
              && Numbered(r.k.rcvQueue[|q|..], k.rcvNxt, r.k.rcvNxt) && Settled(r.k)
              && r.k == k.(rcvQueue := r.k.rcvQueue, rcvBuf := r.k.rcvBuf, rcvNxt := r.k.rcvNxt,
                           askTell := k.askTell || (|k.rcvQueue| >= k.rcvWnd && |r.k.rcvQueue| < k.rcvWnd))
  {
    hide Wrap, Bytes, MessageLength, ReadyCount, MoveReady, Windowed, Numbered;
    FrontLength(k.rcvQueue, n);
    AsI32Small(|Bytes(k.rcvQueue[..n])|);
    var k1 := k.(rcvQueue := k.rcvQueue[n..]);
    MoveReadyKeeps(k1);
    MovesUp(k1);
  }

  lemma MovesUp(k: Endpoint)
    ensures var m := MoveReady(k);
            && m == k.(rcvQueue := m.rcvQueue, rcvBuf := m.rcvBuf, rcvNxt := m.rcvNxt)
            && k.rcvQueue <= m.rcvQueue && m.rcvQueue[|k.rcvQueue|..] + m.rcvBuf == k.rcvBuf
            && Numbered(m.rcvQueue[|k.rcvQueue|..], k.rcvNxt, m.rcvNxt)
  {
    hide Wrap, ReadyCount;
    var room := Max(0, k.rcvWnd - |k.rcvQueue|);
    var n, m := ReadyCount(k.rcvBuf, k.rcvNxt, room), MoveReady(k);
    assert m.rcvQueue[|k.rcvQueue|..] == k.rcvBuf[..n];
    forall i | 0 <= i < n ensures k.rcvBuf[..n][i].sn == Wrap(k.rcvNxt + i) {
      ReadyNumbers(k.rcvBuf, k.rcvNxt, room, i);
    }
  }

  /** Without a whole message `recv` does nothing and says so. */
  lemma RecvWaits(k: Endpoint, capacity: nat)
    requires k.rcvQueue == [] || |k.rcvQueue| <= k.rcvQueue[0].frg
    ensures Recv(k, capacity) == Received(k, -1, [])
  {
    hide MoveReady;
    AsI32Small(-1);
  }
}
