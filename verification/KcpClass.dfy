/** The KCP state machine as the source has it: one object whose methods update queues,
    counters and output in place. Each method computes the function of the same name. */
module KcpClass {
  import opened Words
  import opened KcpWire
  import S = KcpSpec
  import opened KcpInvariant
  import D = KcpDatagram

  type Endpoint = S.Endpoint

  lemma {:induction false} BytesAppend(q: seq<Segment>, s: Segment)
    ensures S.Bytes(q + [s]) == S.Bytes(q) + s.data
  {
    if q == [] {
      assert q + [s] == [s];
    } else {
      assert (q + [s])[1..] == q[1..] + [s];
      BytesAppend(q[1..], s);
    }
  }

  ghost predicate AllSized(out: seq<seq<Segment>>) {
    forall i :: 0 <= i < |out| ==> Sized(out[i])
  }

  /** The datagrams of `out`, as bytes. */
  ghost function EncodeEach(out: seq<seq<Segment>>): (r: seq<seq<byte>>)
    requires AllSized(out)
    ensures |r| == |out| && forall i :: 0 <= i < |out| ==> r[i] == EncodeAll(out[i])
  {
    seq(|out|, i requires 0 <= i < |out| => EncodeAll(out[i]))
  }

  /** The datagram being filled and the ones already pushed to `output` are those of `p`. */
  ghost predicate Packed(buf: seq<byte>, output: seq<seq<byte>>, before: seq<seq<byte>>, p: S.Packer) {
    && AllSized(p.out) && Sized(p.cur)
    && buf == EncodeAll(p.cur) && |buf| == WireSize(p.cur)
    && output == before + EncodeEach(p.out)
  }

  /** `data` was written over the front of `was`. */
  ghost predicate Overwritten(was: seq<byte>, now: seq<byte>, data: seq<byte>) {
    |data| <= |was| && now == data + was[|data|..]
  }

  class Kcp {
    const conv: u32
    var mtu: S.mtu32
    var mss: nat
    var stream: bool
    var sndUna: u32
    var sndNxt: u32
    var rcvNxt: u32
    var sndWnd: S.wnd32
    var rcvWnd: S.wnd32
    var rmtWnd: u32
    var askSend: bool
    var askTell: bool
    var tsProbe: u32
    var probeWait: u32
    var fastresend: int
    var nodelay: u32
    var sndQueue: seq<Segment>
    var rcvQueue: seq<Segment>
    var sndBuf: seq<Segment>
    var rcvBuf: seq<Segment>
    var acklist: seq<(u32, u32)>
    var output: seq<seq<byte>>

    ghost function State(): Endpoint
      reads this
    {
      S.Endpoint(conv, mtu, stream, sndUna, sndNxt, rcvNxt, sndWnd, rcvWnd, rmtWnd, askSend, askTell,
                 tsProbe, probeWait, fastresend, nodelay, sndQueue, rcvQueue, sndBuf, rcvBuf, acklist)
    }

    ghost predicate Inv()
      reads this
    {
      Valid(State()) && mss == mtu - OVERHEAD
    }

    constructor (conv: u32)
      ensures Inv() && State() == S.New(conv) && output == []
    {
      this.conv := conv;
      mtu, mss, stream := S.MTU_DEFAULT, S.MTU_DEFAULT - OVERHEAD, false;
      sndUna, sndNxt, rcvNxt := 0, 0, 0;
      sndWnd, rcvWnd, rmtWnd := S.WND_DEFAULT, S.WND_DEFAULT, S.WND_DEFAULT;
      askSend, askTell, tsProbe, probeWait := false, false, 0, 0;
      fastresend, nodelay := 0, 0;
      sndQueue, rcvQueue, sndBuf, rcvBuf, acklist, output := [], [], [], [], [], [];
    }

    method TakeOutput() returns (o: seq<seq<byte>>)
      modifies this`output
      ensures o == old(output) && output == []
      ensures State() == old(State())
    {
      o := output;
      output := [];
    }

    // ---- Receiving ----

    /** Size of the message at the front as `i32`, or -1. */
    method PeekSize() returns (n: int)
      ensures n == S.PeekSize(rcvQueue)
    {
      hide Wrap;
      var q := rcvQueue;
      WrapMinusOne();
      if q == [] {
        return -1;
      }
      if q[0].frg == 0 {
        assert q[..1] == [q[0]] && S.Bytes([q[0]]) == q[0].data + S.Bytes([]);
        return AsI32(|q[0].data|);
      }
      if |q| < q[0].frg as int + 1 {
        return -1;
      }
      var length, i := 0, 0;
      while i < |q|
        invariant 0 <= i <= |q|
        invariant length == |S.Bytes(q[..i])|
        invariant S.MessageLength(q) == i + S.MessageLength(q[i..])
      {
        BytesAppend(q[..i], q[i]);
        assert q[..i + 1] == q[..i] + [q[i]];
        length := length + |q[i].data|;
        i := i + 1;
        if q[i - 1].frg == 0 {
          assert S.MessageLength(q) == i;
          break;
        }
      }
      assert S.MessageLength(q) == i;
      return AsI32(length);
    }

    static lemma WrapMinusOne()
      ensures AsI32(-1) == -1
    {
      assert Wrap(-1) == TWO32 - 1;
    }

    method MoveReadySegments()
      modifies this`rcvBuf, this`rcvQueue, this`rcvNxt
      ensures State() == S.MoveReady(old(State()))
    {
      hide S.MoveReady, Wrap;
      while rcvBuf != [] && rcvBuf[0].sn == rcvNxt && |rcvQueue| < rcvWnd
        invariant S.MoveReady(State()) == S.MoveReady(old(State()))
        decreases |rcvBuf|
      {
        ghost var k := State();
        MoveReadyStep(k);
        rcvQueue := rcvQueue + [rcvBuf[0]];
        rcvBuf := rcvBuf[1..];
        rcvNxt := Wrap(rcvNxt + 1);
        assert State() == MoveFirst(k);
      }
      MoveReadyStep(State());
    }

    /** Hands over one whole message, or says with -1 that none is complete and with -2 that it
        does not fit; then lets in what was waiting for room. */
    method Recv(buf: array<byte>) returns (code: int)
      requires Inv() && S.CopyFits(rcvQueue, buf.Length)
      modifies this`rcvBuf, this`rcvQueue, this`rcvNxt, this`askTell, buf
      ensures Inv()
      ensures State() == S.Recv(old(State()), buf.Length).k
      ensures code == S.Recv(old(State()), buf.Length).code
      ensures Overwritten(old(buf[..]), buf[..], S.Recv(old(State()), buf.Length).data)
    {
      hide Valid, Wrap, S.MoveReady, S.Bytes, S.MessageLength, S.MessageSize, S.PeekSize, S.CopyFits,
           Overwritten;
      RecvKeeps(State(), buf.Length);
      var peeksize := PeekSize();
      NothingWritten(buf[..]);
      if peeksize < 0 {
        return -1;
      }
      if peeksize > buf.Length {
        return -2;
      }
      MessageFits(rcvQueue, buf.Length);
      var fastRecover := |rcvQueue| >= rcvWnd;
      ghost var before := State();
      var n := PopMessage(buf);
      assert State() == before.(rcvQueue := rcvQueue);
      MoveReadySegments();
      if |rcvQueue| < rcvWnd && fastRecover {
        askTell := true;
      }
      return AsI32(n);
    }

    static lemma NothingWritten(was: seq<byte>)
      ensures Overwritten(was, was, [])
    {
      assert was == [] + was[0..];
    }

    static lemma MessageFits(q: seq<Segment>, capacity: nat)
      requires S.CopyFits(q, capacity) && 0 <= S.PeekSize(q) <= capacity
      ensures |S.Bytes(q[..S.MessageLength(q)])| <= capacity
      ensures AsI32(|S.Bytes(q[..S.MessageLength(q)])|) == S.PeekSize(q)
    {
      hide Wrap;
      WrapMinusOne();
    }

    /** Pops segments up to and including one with `frg == 0`, copying their data. */
    method PopMessage(buf: array<byte>) returns (n: nat)
      requires |S.Bytes(rcvQueue[..S.MessageLength(rcvQueue)])| <= buf.Length
      modifies this`rcvQueue, buf
      ensures rcvQueue == old(rcvQueue)[S.MessageLength(old(rcvQueue))..]
      ensures n == |S.Bytes(old(rcvQueue)[..S.MessageLength(old(rcvQueue))])|
      ensures Overwritten(old(buf[..]), buf[..], S.Bytes(old(rcvQueue)[..S.MessageLength(old(rcvQueue))]))
    {
      ghost var q, before := rcvQueue, buf[..];
      n := 0;
      ghost var i := 0;
      while rcvQueue != []
        invariant 0 <= i <= |q| && rcvQueue == q[i..]
        invariant S.MessageLength(q) == i + S.MessageLength(q[i..])
        invariant n == |S.Bytes(q[..i])| <= buf.Length && buf[..n] == S.Bytes(q[..i])
        invariant forall j :: n <= j < buf.Length ==> buf[j] == before[j]
        decreases |rcvQueue|
      {
        var seg := rcvQueue[0];
        BytesAppend(q[..i], seg);
        assert q[..i + 1] == q[..i] + [seg];
        PrefixFits(q, i + 1);
        CopyInto(buf, n, seg.data);
        n := n + |seg.data|;
        rcvQueue := rcvQueue[1..];
        i := i + 1;
        if seg.frg == 0 {
          break;
        }
      }
      assert i == S.MessageLength(q);
    }

    /** `buf[at..at + data.len()].copy_from_slice(data)` */
    static method CopyInto(buf: array<byte>, at: nat, data: seq<byte>)
      requires at + |data| <= buf.Length
      modifies buf
      ensures buf[..at + |data|] == old(buf[..at]) + data
      ensures forall j :: at + |data| <= j < buf.Length ==> buf[j] == old(buf[j])
    {
      forall j | 0 <= j < |data| {
        buf[at + j] := data[j];
      }
    }

    static lemma {:induction false} PrefixFits(q: seq<Segment>, i: nat)
      requires i <= S.MessageLength(q)
      ensures |S.Bytes(q[..i])| <= |S.Bytes(q[..S.MessageLength(q)])|
      decreases S.MessageLength(q) - i
    {
      var m := S.MessageLength(q);
      if i < m {
        PrefixFits(q, i + 1);
        BytesAppend(q[..i], q[i]);
        assert q[..i + 1] == q[..i] + [q[i]];
      }
    }

    static lemma InsertAt(buf: seq<Segment>, at: nat, seg: Segment)
      requires 0 < at <= |buf|
      ensures S.Insert(buf[..at], seg) + buf[at..]
           == if buf[at - 1].sn == seg.sn then buf
              else if TimeDiff(seg.sn, buf[at - 1].sn) > 0 then buf[..at] + [seg] + buf[at..]
              else S.Insert(buf[..at - 1], seg) + buf[at - 1..]
    {
      hide TimeDiff;
      assert buf[..at][..at - 1] == buf[..at - 1];
      assert buf[..at] + buf[at..] == buf;
      assert [buf[at - 1]] + buf[at..] == buf[at - 1..];
    }

    static lemma InsertFirst(buf: seq<Segment>, seg: Segment)
      ensures S.Insert(buf[..0], seg) + buf[0..] == buf[..0] + [seg] + buf[0..]
    {
    }

    /** Where `seg` goes, looked for from the back, or that its number is already there. */
    method FindSlot(seg: Segment) returns (at: nat, repeated: bool)
      ensures at <= |rcvBuf|
      ensures S.Insert(rcvBuf, seg) == if repeated then rcvBuf else rcvBuf[..at] + [seg] + rcvBuf[at..]
    {
      hide TimeDiff, S.Insert;
      var buf := rcvBuf;
      at := |buf|;
      assert buf[..at] == buf && buf + buf[at..] == buf;
      while at > 0
        invariant at <= |buf|
        invariant S.Insert(buf, seg) == S.Insert(buf[..at], seg) + buf[at..]
      {
        InsertAt(buf, at, seg);
        if buf[at - 1].sn == seg.sn {
          return at, true;
        }
        if TimeDiff(seg.sn, buf[at - 1].sn) > 0 {
          return at, false;
        }
        at := at - 1;
      }
      InsertFirst(buf, seg);
      return 0, false;
    }

    /** Inserts `seg` by its number unless it is old, too new or already there. */
    method ParseData(seg: Segment) returns (repeated: bool)
      modifies this`rcvBuf, this`rcvQueue, this`rcvNxt
      ensures var k := old(State());
              if TimeDiff(seg.sn, Wrap(k.rcvNxt + k.rcvWnd)) >= 0 || TimeDiff(seg.sn, k.rcvNxt) < 0
                         then repeated && State() == k
                         else (repeated <==> S.Insert(k.rcvBuf, seg) == k.rcvBuf)
                              && State() == S.MoveReady(k.(rcvBuf := S.Insert(k.rcvBuf, seg)))
    {
      hide S.MoveReady;
      if TimeDiff(seg.sn, Wrap(rcvNxt + rcvWnd)) >= 0 || TimeDiff(seg.sn, rcvNxt) < 0 {
        return true;
      }
      hide TimeDiff, S.Insert, Wrap;
      ghost var k := State();
      var at;
      at, repeated := FindSlot(seg);
      if !repeated {
        rcvBuf := rcvBuf[..at] + [seg] + rcvBuf[at..];
      }
      assert State() == k.(rcvBuf := S.Insert(k.rcvBuf, seg));
      MoveReadySegments();
    }

    // ---- Sending ----

    method Send(data: seq<byte>) returns (code: int)
      requires Inv()
      modifies this`sndQueue
      ensures Inv()
      ensures State() == S.Send(old(State()), data).0 && code == S.Send(old(State()), data).1
    {
      hide Valid, S.Fragments, S.Absorb, S.Absorbed;
      SendKeeps(State(), data);
      if data == [] {
        return -1;
      }
      ghost var k := State();
      var buf := data;
      if stream {
        buf := AbsorbTail(data);
        if buf == [] {
          return 0;
        }
      } else {
        MessageAbsorbsNothing(k, data);
      }
      var count := if |buf| <= mss then 1 else (|buf| + mss - 1) / mss;
      assert count == S.FragmentCount(|buf|, mss);
      if count > 255 {
        return -2;
      }
      QueueFragments(buf, count);
      return 0;
    }

    static lemma MessageAbsorbsNothing(k: Endpoint, data: seq<byte>)
      requires !k.stream
      ensures S.Absorb(k, data) == k && data[S.Absorbed(k, data)..] == data
    {
    }

    /** Stream mode: bytes go into the last queued segment while it has room. */
    method AbsorbTail(data: seq<byte>) returns (buf: seq<byte>)
      requires stream && mss == mtu - OVERHEAD && data != []
      modifies this`sndQueue
      ensures State() == S.Absorb(old(State()), data) && buf == data[S.Absorbed(old(State()), data)..]
    {
      buf := data;
      if sndQueue != [] {
        var last := |sndQueue| - 1;
        var seg := sndQueue[last];
        if |seg.data| < mss {
          var extend := Min(mss - |seg.data|, |buf|);
          sndQueue := sndQueue[last := seg.(data := seg.data + buf[..extend])];
          buf := buf[extend..];
        }
      }
    }

    method QueueFragments(data: seq<byte>, count: nat)
      requires count <= 255 && mss > 0
      modifies this`sndQueue
      ensures sndQueue == old(sndQueue) + S.Fragments(data, mss, count, stream)
    {
      var buf := data;
      for i := 0 to count
        invariant sndQueue + S.Fragments(buf, mss, count - i, stream)
               == old(sndQueue) + S.Fragments(data, mss, count, stream)
      {
        var size := Min(|buf|, mss);
        var seg := BLANK.(frg := if stream then 0 else count - i - 1, data := buf[..size]);
        assert S.Fragments(buf, mss, count - i, stream) == [seg] + S.Fragments(buf[size..], mss, count - i - 1, stream);
        assert sndQueue + [seg] + S.Fragments(buf[size..], mss, count - i - 1, stream)
            == sndQueue + S.Fragments(buf, mss, count - i, stream);
        sndQueue := sndQueue + [seg];
        buf := buf[size..];
      }
    }

    /** Returns how many segments were released. */
    method ParseUna(una: u32) returns (count: nat)
      modifies this`sndBuf
      ensures sndBuf == S.DropBelow(old(sndBuf), una)
      ensures count > 0 <==> S.Slides(old(State()), una)
    {
      hide TimeDiff;
      count := 0;
      while sndBuf != [] && TimeDiff(una, sndBuf[0].sn) > 0
        invariant S.DropBelow(sndBuf, una) == S.DropBelow(old(sndBuf), una)
        invariant if count == 0 then sndBuf == old(sndBuf) else S.Slides(old(State()), una)
        decreases |sndBuf|
      {
        sndBuf := sndBuf[1..];
        count := count + 1;
      }
    }

    method ShrinkBuf()
      modifies this`sndUna
      ensures sndUna == if sndBuf == [] then sndNxt else sndBuf[0].sn
    {
      sndUna := if sndBuf != [] then sndBuf[0].sn else sndNxt;
    }

    /** Stops at the first segment past `sn`; the numbering makes that the whole search. */
    method ParseAck(sn: u32)
      requires Numbered(sndBuf, sndUna, sndNxt) && |sndBuf| < TWO31
      modifies this`sndBuf
      ensures sndBuf == if S.InFlight(old(State()), sn) then S.MarkAcked(old(sndBuf), sn) else old(sndBuf)
    {
      if TimeDiff(sn, sndUna) < 0 || TimeDiff(sn, sndNxt) >= 0 {
        return;
      }
      ghost var buf := sndBuf;
      forall i: nat | i < |buf|
        ensures TimeDiff(sn, buf[i].sn) == Offset(sn, sndUna) - i && (sn == buf[i].sn <==> Offset(sn, sndUna) == i)
      {
        NumberedOrder(buf, sndUna, sndNxt, sn, i);
      }
      hide TimeDiff, Numbered, Offset;
      for i := 0 to |sndBuf|
        invariant sndBuf == buf && forall j :: 0 <= j < i ==> buf[j].sn != sn
      {
        if sn == sndBuf[i].sn {
          sndBuf := sndBuf[i := sndBuf[i].(acked := true, data := [])];
          break;
        }
        if TimeDiff(sn, sndBuf[i].sn) < 0 {
          break;
        }
      }
      assert sndBuf == S.MarkAcked(buf, sn);
    }

    method ParseFastack(sn: u32, ts: u32)
      requires Numbered(sndBuf, sndUna, sndNxt) && |sndBuf| < TWO31
      modifies this`sndBuf
      ensures sndBuf == if S.InFlight(old(State()), sn) then S.CountFastAck(old(sndBuf), sn, ts) else old(sndBuf)
    {
      if TimeDiff(sn, sndUna) < 0 || TimeDiff(sn, sndNxt) >= 0 {
        return;
      }
      ghost var buf := sndBuf;
      forall i: nat | i < |buf|
        ensures TimeDiff(sn, buf[i].sn) == Offset(sn, sndUna) - i && (sn == buf[i].sn <==> Offset(sn, sndUna) == i)
      {
        NumberedOrder(buf, sndUna, sndNxt, sn, i);
      }
      ghost var all := S.CountFastAck(buf, sn, ts);
      hide TimeDiff, Numbered, Offset, Wrap;
      for i := 0 to |sndBuf|
        invariant |sndBuf| == |buf|
        invariant forall j :: 0 <= j < |buf| ==> sndBuf[j] == if j < i then all[j] else buf[j]
      {
        if TimeDiff(sn, sndBuf[i].sn) < 0 {
          break;
        } else if sn != sndBuf[i].sn && TimeDiff(sndBuf[i].ts, ts) <= 0 {
          sndBuf := sndBuf[i := sndBuf[i].(fastack := Wrap(sndBuf[i].fastack + 1))];
        }
      }
      assert sndBuf == all;
    }

    // ---- Input ----

    method ProcessAck(sn: u32, ts: u32)
      requires Numbered(sndBuf, sndUna, sndNxt) && |sndBuf| < TWO31
      modifies this`sndBuf
      ensures State() == S.ParseAck(old(State()), sn, ts)
    {
      ghost var k := State();
      hide Wrap, TimeDiff;
      ParseAck(sn);
      assert Numbered(sndBuf, sndUna, sndNxt);
      assert S.InFlight(State(), sn) == S.InFlight(k, sn);
      hide Numbered, S.InFlight, S.MarkAcked, S.CountFastAck;
      ParseFastack(sn, ts);
    }

    method ProcessPush(seg: Segment)
      modifies this`rcvBuf, this`rcvQueue, this`rcvNxt, this`acklist
      ensures State() == S.ParsePush(old(State()), seg)
    {
      hide Wrap, TimeDiff, S.MoveReady, S.Insert;
      if TimeDiff(seg.sn, Wrap(rcvNxt + rcvWnd)) < 0 {
        acklist := acklist + [(seg.sn, seg.ts)];
        if TimeDiff(seg.sn, rcvNxt) >= 0 {
          var _ := ParseData(seg);
        }
      }
    }

    /** `parse_una` and `shrink_buf`, with the window advert; returns whether anything was released. */
    method AcknowledgeSegment(seg: Segment, regular: bool) returns (slid: bool)
      modifies this`rmtWnd, this`sndBuf, this`sndUna
      ensures var k := old(State());
              State() == S.Acknowledge(if regular then k.(rmtWnd := seg.wnd) else k, seg.una)
      ensures slid == S.Slides(old(State()), seg.una)
    {
      hide TimeDiff, S.DropBelow;
      if regular {
        rmtWnd := seg.wnd;
      }
      var count := ParseUna(seg.una);
      slid := count > 0;
      ShrinkBuf();
    }

    /** The parsing loop's work on one well-formed segment. */
    method ProcessSegment(seg: Segment, regular: bool) returns (slid: bool)
      requires Inv()
      modifies this`rmtWnd, this`sndBuf, this`sndUna, this`rcvBuf, this`rcvQueue, this`rcvNxt,
               this`acklist, this`askTell
      ensures Inv()
      ensures State() == S.Process(old(State()), seg, regular)
      ensures slid == S.Slides(old(State()), seg.una)
    {
      hide Valid, TimeDiff, Wrap, S.ParsePush, S.ParseAck, S.Acknowledge, Numbered;
      ProcessKeeps(State(), seg, regular);
      AcknowledgedNumbered(State(), regular, seg);
      slid := AcknowledgeSegment(seg, regular);
      if seg.cmd == CMD_ACK {
        ProcessAck(seg.sn, seg.ts);
      } else if seg.cmd == CMD_PUSH {
        ProcessPush(seg);
      } else if seg.cmd == CMD_WASK {
        askTell := true;
      }
    }

    static lemma AcknowledgedNumbered(k: Endpoint, regular: bool, seg: Segment)
      requires Valid(k)
      ensures var k1 := S.Acknowledge(if regular then k.(rmtWnd := seg.wnd) else k, seg.una);
              Numbered(k1.sndBuf, k1.sndUna, k1.sndNxt) && |k1.sndBuf| < TWO31
    {
      AcknowledgeKeeps(if regular then k.(rmtWnd := seg.wnd) else k, seg.una);
    }

    /** Feeds one received datagram. */
    method Input(data: seq<byte>, regular: bool, ackNoDelay: bool, env: S.Env) returns (code: int)
      requires Inv()
      modifies this
      ensures Inv() && Emitted(S.Input(old(State()), data, regular, ackNoDelay, env), old(output), code)
    {
      hide Valid, S.Flush;
      if |data| < OVERHEAD {
        Quiet(output);
        return -1;
      }
      var rest, slides := data, false;
      ghost var all := S.InputLoop(State(), data, regular, false);
      while |rest| >= OVERHEAD
        invariant Inv() && output == old(output)
        invariant S.InputLoop(State(), rest, regular, slides) == all
        decreases |rest|
      {
        var head := HeadOf(rest);
        if head.conv != conv {
          Quiet(output);
          return -1;
        }
        var n := LengthOf(rest);
        var tail := rest[OVERHEAD..];
        if |tail| < n {
          Quiet(output);
          return -2;
        }
        if !S.KnownCommand(head.cmd) {
          Quiet(output);
          return -3;
        }
        var slid := ProcessSegment(head.(data := tail[..n]), regular);
        slides := slides || slid;
        rest := tail[n..];
      }
      if slides {
        Flush(false, env);
      } else if ackNoDelay && acklist != [] {
        Flush(true, env);
      } else {
        Quiet(output);
      }
      return 0;
    }

    /** The object after a call: new state, return code, and datagrams appended to `output`. */
    ghost predicate Emitted(o: S.Outcome, before: seq<seq<byte>>, code: int)
      reads this
    {
      && State() == o.k && code == o.code
      && AllSized(o.out) && output == before + EncodeEach(o.out)
    }

    static lemma Quiet(output: seq<seq<byte>>)
      ensures AllSized([]) && output == output + EncodeEach([])
    {
    }

    // ---- Flush ----

    method WndUnused() returns (w: u16)
      ensures w == S.Unused(State())
    {
      if |rcvQueue| < rcvWnd {
        return (rcvWnd - |rcvQueue|) % 0x1_0000;
      }
      return 0;
    }

    /** Pushes the current datagram to `output` if `space` more bytes would not fit. */
    method MakeSpace(buf: seq<byte>, space: nat, ghost before: seq<seq<byte>>, ghost p: S.Packer)
      returns (next: seq<byte>)
      requires Packed(buf, output, before, p)
      modifies this`output
      ensures Packed(next, output, before, S.Room(p, space, mtu))
    {
      next := buf;
      if |buf| + space > mtu {
        assert EncodeEach(p.out + [p.cur]) == EncodeEach(p.out) + [buf];
        output := output + [buf];
        next := [];
      }
    }

    static lemma PutSegment(buf: seq<byte>, output: seq<seq<byte>>, before: seq<seq<byte>>, p: S.Packer, seg: Segment)
      requires Packed(buf, output, before, p) && |seg.data| < TWO32
      ensures Packed(buf + Wire(seg), output, before, S.Add(p, seg))
    {
      EncodeAllAppend(p.cur, seg);
      WireSizeAppend(p.cur, seg);
    }

    /** Wire bytes do not depend on the sender's bookkeeping. */
    static lemma WireOnWire(seg: Segment)
      requires |seg.data| < TWO32
      ensures Wire(seg) == Wire(OnWire(seg))
    {
    }

    /** Makes room for a segment and, if asked to, writes it. */
    method PutSized(seg: Segment, wanted: bool, buf: seq<byte>, ghost before: seq<seq<byte>>, ghost p: S.Packer)
      returns (next: seq<byte>)
      requires Packed(buf, output, before, p) && |seg.data| < TWO32
      modifies this`output
      ensures var p1 := S.Room(p, OVERHEAD + |seg.data|, mtu);
              Packed(next, output, before, if wanted then S.Add(p1, OnWire(seg)) else p1)
    {
      next := MakeSpace(buf, OVERHEAD + |seg.data|, before, p);
      if wanted {
        WireOnWire(seg);
        PutSegment(next, output, before, S.Room(p, OVERHEAD + |seg.data|, mtu), OnWire(seg));
        next := next + Encode(seg) + seg.data;
      }
    }

    method PutAcks(ctrl: Segment, ghost before: seq<seq<byte>>) returns (buf: seq<byte>)
      requires ctrl == S.Control(State()) && output == before
      modifies this`output, this`acklist
      ensures acklist == []
      ensures Packed(buf, output, before, S.AckPacker(old(State())))
    {
      hide TimeDiff;
      var acks := acklist;
      acklist := [];
      buf := [];
      ghost var p := S.Packer([], []);
      Quiet(output);
      hide Packed, S.Room;
      for i := 0 to |acks|
        invariant acklist == [] && Packed(buf, output, before, p)
        invariant S.PutAcks(acks, i, ctrl, rcvNxt, mtu, p) == S.PutAcks(acks, 0, ctrl, rcvNxt, mtu, S.Packer([], []))
      {
        var seg := ctrl.(sn := acks[i].0, ts := acks[i].1);
        var wanted := TimeDiff(acks[i].0, rcvNxt) >= 0 || i == |acks| - 1;
        buf := PutSized(seg, wanted, buf, before, p);
        p := S.Room(p, OVERHEAD, mtu);
        p := if wanted then S.Add(p, seg) else p;
      }
    }

    method RunProbeTimer(current: u32)
      modifies this`probeWait, this`tsProbe, this`askSend
      ensures State() == S.Probe(old(State()), current)
    {
      hide TimeDiff, Wrap;
      if rmtWnd == 0 {
        if probeWait == 0 {
          probeWait := S.PROBE_INIT;
          tsProbe := Wrap(current + probeWait);
        } else if TimeDiff(current, tsProbe) >= 0 {
          if probeWait < S.PROBE_INIT {
            probeWait := S.PROBE_INIT;
          }
          probeWait := Min(probeWait + probeWait / 2, S.PROBE_LIMIT);
          tsProbe := Wrap(current + probeWait);
          askSend := true;
        }
      } else {
        tsProbe := 0;
        probeWait := 0;
      }
    }

    method PutProbe(ask: bool, seg: Segment, buf: seq<byte>, ghost before: seq<seq<byte>>, ghost p: S.Packer)
      returns (next: seq<byte>)
      requires Packed(buf, output, before, p) && seg.data == [] && seg == OnWire(seg)
      modifies this`output
      ensures Packed(next, output, before, S.PutProbe(ask, seg, mtu, p))
    {
      next := buf;
      if ask {
        next := PutSized(seg, true, buf, before, p);
      }
    }

    /** Moves queued segments into the send buffer while the window has room. */
    method Refill(wnd: u32) returns (newSegs: nat)
      requires wnd < TWO31 && |sndBuf| < TWO31 && sndNxt == Wrap(sndUna + |sndBuf|)
      modifies this`sndQueue, this`sndBuf, this`sndNxt
      ensures State() == S.Admit(old(State()), wnd) && newSegs == S.Admitted(old(State()), wnd)
    {
      hide S.Admit, S.Admitted, Wrap, TimeDiff;
      newSegs := 0;
      while sndQueue != []
        invariant S.Admit(State(), wnd) == S.Admit(old(State()), wnd)
        invariant newSegs + S.Admitted(State(), wnd) == S.Admitted(old(State()), wnd)
        invariant |sndBuf| < TWO31 && sndNxt == Wrap(sndUna + |sndBuf|)
        decreases |sndQueue|
      {
        TimeDiffIsOffset(sndUna + |sndBuf|, sndUna + wnd);
        if TimeDiff(sndNxt, Wrap(sndUna + wnd)) >= 0 {
          break;
        }
        ghost var k := State();
        AdmitStep(k, wnd);
        WrapSum(sndUna + |sndBuf|, 1);
        var seg := sndQueue[0].(conv := conv, cmd := CMD_PUSH, sn := sndNxt);
        sndQueue := sndQueue[1..];
        sndBuf := sndBuf + [seg];
        sndNxt := Wrap(sndNxt + 1);
        newSegs := newSegs + 1;
        assert State() == AdmitFirst(k);
      }
      AdmitStep(State(), wnd);
    }

    /** The four reasons to send a segment now, and the timer each leaves behind. */
    static method Schedule(segment: Segment, current: u32, w: S.Pass) returns (seg: Segment, needsend: bool)
      ensures needsend == S.Due(segment, w, current)
      ensures seg == if needsend then S.Rearm(segment, w, current) else segment
      ensures seg.data == segment.data
    {
      hide TimeDiff, Wrap;
      seg, needsend := segment, false;
      if seg.xmit == 0 {
        needsend := true;
        seg := seg.(rto := w.rto, resendts := Wrap(current + w.rto));
      } else if seg.fastack >= w.resent {
        needsend := true;
        seg := seg.(fastack := 0, rto := w.rto, resendts := Wrap(current + w.rto));
      } else if seg.fastack > 0 && w.idle {
        needsend := true;
        seg := seg.(fastack := 0, rto := w.rto, resendts := Wrap(current + w.rto));
      } else if TimeDiff(current, seg.resendts) >= 0 {
        needsend := true;
        var rto := if w.nodelay == 0 then Wrap(seg.rto + w.rto) else Wrap(seg.rto + w.rto / 2);
        seg := seg.(rto := rto, fastack := 0, resendts := Wrap(current + rto));
      }
    }

    /** The loop body of the transmission pass. */
    method Transmit(i: nat, w: S.Pass, clock: u32, ticks: nat, first: seq<byte>,
                    ghost before: seq<seq<byte>>, ghost p: S.Packer)
      returns (buf: seq<byte>, current: u32, tick: nat)
      requires i < |sndBuf| && |sndBuf[i].data| < TWO32 && w.mtu == mtu && Packed(first, output, before, p)
      modifies this`sndBuf, this`output
      ensures var v := S.Visit(old(sndBuf)[i], w, clock, ticks, p);
              && sndBuf == old(sndBuf)[i := v.seg] && current == v.current && tick == v.tick
              && Packed(buf, output, before, v.p)
    {
      hide Packed, S.Room, S.Due, S.Rearm, Wrap;
      buf, current, tick := first, clock, ticks;
      var seg := sndBuf[i];
      if !seg.acked {
        var needsend;
        seg, needsend := Schedule(seg, current, w);
        if needsend {
          current := w.clock(tick);
          tick := tick + 1;
          seg := S.Stamp(seg, w, current);
          buf := PutSized(seg, true, buf, before, p);
        }
        sndBuf := sndBuf[i := seg];
      }
    }

    static lemma SweepStep(todo: seq<Segment>, i: nat, done: seq<Segment>, w: S.Pass, current: u32, tick: nat,
                           p: S.Packer)
      requires i < |todo| && |done| == i
      ensures var v := S.Visit(todo[i], w, current, tick, p); var rest := done + todo[i..];
              && rest[i] == todo[i] && rest[i := v.seg] == done + [v.seg] + todo[i + 1..]
              && done + S.Sweep(todo[i..], w, current, tick, p).0
                 == done + [v.seg] + S.Sweep(todo[i + 1..], w, v.current, v.tick, v.p).0
              && S.Sweep(todo[i..], w, current, tick, p).1 == S.Sweep(todo[i + 1..], w, v.current, v.tick, v.p).1
    {
      hide S.Visit;
      var v := S.Visit(todo[i], w, current, tick, p);
      assert todo[i..][0] == todo[i] && todo[i..][1..] == todo[i + 1..];
      assert forall x: seq<Segment> :: done + ([v.seg] + x) == done + [v.seg] + x;
    }

    static lemma SweepNone(todo: seq<Segment>, done: seq<Segment>, w: S.Pass, current: u32, tick: nat, p: S.Packer)
      ensures done + todo[|todo|..] == done
      ensures done + S.Sweep(todo[|todo|..], w, current, tick, p).0 == done
      ensures S.Sweep(todo[|todo|..], w, current, tick, p).1 == p
    {
    }

    method Retransmit(w: S.Pass, start: u32, first: seq<byte>, ghost before: seq<seq<byte>>, ghost p0: S.Packer)
      returns (buf: seq<byte>, ghost p: S.Packer)
      requires Packed(first, output, before, p0) && Sized(sndBuf) && w.mtu == mtu
      modifies this`sndBuf, this`output
      ensures sndBuf == S.Sweep(old(sndBuf), w, start, 2, p0).0
      ensures p == S.Sweep(old(sndBuf), w, start, 2, p0).1
      ensures Packed(buf, output, before, p)
    {
      hide Packed, S.Visit, S.Sweep;
      ghost var all := S.Sweep(sndBuf, w, start, 2, p0);
      ghost var todo, done := sndBuf, [];
      buf, p := first, p0;
      var current, tick := start, 2;
      assert done + todo[0..] == todo && todo[0..] == todo;
      assert done + all.0 == all.0;
      for i := 0 to |sndBuf|
        invariant |done| == i <= |todo| && sndBuf == done + todo[i..]
        invariant Packed(buf, output, before, p)
        invariant all.0 == done + S.Sweep(todo[i..], w, current, tick, p).0
        invariant all.1 == S.Sweep(todo[i..], w, current, tick, p).1
      {
        SweepStep(todo, i, done, w, current, tick, p);
        ghost var v := S.Visit(todo[i], w, current, tick, p);
        buf, current, tick := Transmit(i, w, current, tick, buf, before, p);
        p, done := v.p, done + [v.seg];
      }
      SweepNone(todo, done, w, current, tick, p);
    }

    method FinishDatagram(buf: seq<byte>, ghost before: seq<seq<byte>>, ghost p: S.Packer)
      requires Packed(buf, output, before, p)
      modifies this`output
      ensures AllSized(S.Close(p)) && output == before + EncodeEach(S.Close(p))
    {
      if buf != [] {
        assert EncodeEach(p.out + [p.cur]) == EncodeEach(p.out) + [buf];
        output := output + [buf];
      } else {
        EncodeAllSize(p.cur);
      }
    }

    /** Writes the probes asked for and forgets the requests. */
    method PutProbes(ctrl: Segment, first: seq<byte>, ghost before: seq<seq<byte>>, ghost p0: S.Packer)
      returns (buf: seq<byte>)
      requires ctrl.data == [] && ctrl == OnWire(ctrl) && Packed(first, output, before, p0)
      modifies this`askSend, this`askTell, this`output
      ensures !askSend && !askTell
      ensures Packed(buf, output, before,
                     S.PutProbe(old(askTell), ctrl.(cmd := CMD_WINS), mtu,
                                S.PutProbe(old(askSend), ctrl.(cmd := CMD_WASK), mtu, p0)))
    {
      hide Packed, S.PutProbe;
      buf := PutProbe(askSend, ctrl.(cmd := CMD_WASK), first, before, p0);
      ghost var p := S.PutProbe(askSend, ctrl.(cmd := CMD_WASK), mtu, p0);
      buf := PutProbe(askTell, ctrl.(cmd := CMD_WINS), buf, before, p);
      askSend, askTell := false, false;
    }

    /** Window probes, to ask for or to tell a window. `k` is the endpoint before `flush`. */
    method FlushProbes(ctrl: Segment, first: seq<byte>, env: S.Env, ghost before: seq<seq<byte>>, ghost k: Endpoint)
      returns (buf: seq<byte>)
      requires State() == k.(acklist := []) && ctrl == S.AfterAcks(k)
      requires Packed(first, output, before, S.AckPacker(k))
      modifies this`probeWait, this`tsProbe, this`askSend, this`askTell, this`output
      ensures State() == S.Probed(k, env)
      ensures Packed(buf, output, before, S.Announced(k, env))
    {
      hide Packed, S.PutProbe, S.AckPacker, S.Probe;
      ProbeIgnoresAcks(k, env.clock(0));
      RunProbeTimer(env.clock(0));
      buf := PutProbes(ctrl, first, before, S.AckPacker(k));
    }

    static lemma ProbeIgnoresAcks(k: Endpoint, current: u32)
      ensures S.Probe(k.(acklist := []), current) == S.Probe(k, current).(acklist := [])
      ensures S.Probe(k, current).mtu == k.mtu
    {
    }

    /** Data segments: new ones as the window allows, and those due again. */
    method FlushData(wnd: u16, una: u32, first: seq<byte>, env: S.Env, ghost before: seq<seq<byte>>, ghost k: Endpoint)
      requires State() == S.Probed(k, env) && Valid(k) && wnd == S.Unused(k) && una == k.rcvNxt
      requires Packed(first, output, before, S.Announced(k, env))
      modifies this`sndQueue, this`sndBuf, this`sndNxt, this`output
      ensures Emitted(S.Flush(k, false, env), before, 0)
    {
      hide Valid, Packed, S.Announced, S.Admit, Wrap, S.Probe, S.Sweep;
      ProbedNumbered(k, env);
      RefilledSized(k, env);
      var newSegs := Refill(Min(env.cwnd, Min(sndWnd, rmtWnd)));
      assert State() == S.Refilled(k, env);
      var w := S.Pass(wnd, una, mtu, env.rto, S.Resent(fastresend), newSegs == 0, nodelay, env.clock);
      assert w == S.FlushPass(k, env);
      hide S.Refilled, S.FlushPass;
      ghost var p0 := S.Announced(k, env);
      var buf; ghost var p;
      buf, p := Retransmit(w, env.clock(1), first, before, p0);
      FinishDatagram(buf, before, p);
    }

    static lemma ProbedNumbered(k: Endpoint, env: S.Env)
      requires Valid(k)
      ensures var k1 := S.Probed(k, env);
              && k1.sndNxt == Wrap(k1.sndUna + |k1.sndBuf|) && |k1.sndBuf| < TWO31
              && k1.sndWnd == k.sndWnd && k1.rmtWnd == k.rmtWnd && k1.fastresend == k.fastresend
              && k1.nodelay == k.nodelay && k1.mtu == k.mtu
              && forall wnd :: S.Admitted(k1, wnd) == S.Admitted(k, wnd)
    {
      ProbedIs(k, env);
    }

    static lemma RefilledSized(k: Endpoint, env: S.Env)
      requires Valid(k)
      ensures Sized(S.Refilled(k, env).sndBuf)
    {
      RefilledKeeps(k, env);
    }

    /** One pass over everything this endpoint may have to say: first what it acknowledges, then
        the rest. */
    method Flush(ackOnly: bool, env: S.Env)
      requires Inv()
      modifies this
      ensures Inv() && Emitted(S.Flush(old(State()), ackOnly, env), old(output), 0)
    {
      hide Valid, Packed, S.Flush, S.AckPacker, S.AfterAcks, S.Unused;
      ghost var k, before := State(), output;
      FlushKeeps(k, ackOnly, env);
      FlushMtu(k, ackOnly, env);
      var wnd, una, ctrl, buf := FlushAcks(before);
      if ackOnly {
        AcksOnly(k, env);
        FinishDatagram(buf, before, S.AckPacker(k));
      } else {
        FlushRest(wnd, una, ctrl, buf, env, before, k);
      }
    }

    /** Pending ACKs; `ctrl` is the last one written, which the probes reuse. */
    method FlushAcks(ghost before: seq<seq<byte>>) returns (wnd: u16, una: u32, ctrl: Segment, buf: seq<byte>)
      requires output == before
      modifies this`output, this`acklist
      ensures State() == old(State()).(acklist := [])
      ensures wnd == S.Unused(old(State())) && una == rcvNxt && ctrl == S.AfterAcks(old(State()))
      ensures Packed(buf, output, before, S.AckPacker(old(State())))
    {
      hide Packed, S.AckPacker, S.Unused;
      wnd := WndUnused();
      una := rcvNxt;
      ctrl := BLANK.(conv := conv, cmd := CMD_ACK, wnd := wnd, una := una);
      var acks := acklist;
      buf := PutAcks(ctrl, before);
      if acks != [] {
        ctrl := ctrl.(sn := acks[|acks| - 1].0, ts := acks[|acks| - 1].1);
      }
    }

    /** Everything after the ACKs: probes, then data. */
    method FlushRest(wnd: u16, una: u32, ctrl: Segment, first: seq<byte>, env: S.Env, ghost before: seq<seq<byte>>,
                     ghost k: Endpoint)
      requires State() == k.(acklist := []) && Valid(k) && ctrl == S.AfterAcks(k)
      requires wnd == S.Unused(k) && una == k.rcvNxt && Packed(first, output, before, S.AckPacker(k))
      modifies this`probeWait, this`tsProbe, this`askSend, this`askTell,
               this`sndQueue, this`sndBuf, this`sndNxt, this`output
      ensures Emitted(S.Flush(k, false, env), before, 0)
    {
      hide Valid, Packed, Emitted, S.Flush, S.AckPacker, S.AfterAcks, S.Unused, S.Probed, S.Announced;
      var buf := FlushProbes(ctrl, first, env, before, k);
      FlushData(wnd, una, buf, env, before, k);
    }

    static lemma AcksOnly(k: Endpoint, env: S.Env)
      ensures S.Flush(k, true, env) == S.Outcome(k.(acklist := []), 0, S.Close(S.AckPacker(k)))
    {
    }

    static lemma FlushMtu(k: Endpoint, ackOnly: bool, env: S.Env)
      ensures S.Flush(k, ackOnly, env).k.mtu == k.mtu
    {
      ProbedIs(k, env);
    }
  }
}
