/** What each operation of a KCP endpoint does, as a function of its state. Class `Kcp`
    (KcpClass.dfy) is proved to compute these functions; the invariants and the
    two-endpoint theorems are about them. */
module KcpSpec {
  import opened Words
  import opened KcpWire

  const PROBE_INIT: u32 := 7000
  const PROBE_LIMIT: u32 := 120000
  const WND_DEFAULT: u32 := 32
  const MTU_DEFAULT: u32 := 1400

  /** What `set_mtu` and `wnd_size` let through. */
  type mtu32 = x: int | 50 <= x < TWO32 witness MTU_DEFAULT
  type wnd32 = x: int | 0 < x < TWO31 witness WND_DEFAULT

  datatype Endpoint = Endpoint(
    conv: u32, mtu: mtu32, stream: bool,
    sndUna: u32, sndNxt: u32, rcvNxt: u32,
    sndWnd: wnd32, rcvWnd: wnd32, rmtWnd: u32,
    askSend: bool, askTell: bool, tsProbe: u32, probeWait: u32,
    fastresend: int, nodelay: u32,
    sndQueue: seq<Segment>, rcvQueue: seq<Segment>,
    sndBuf: seq<Segment>, rcvBuf: seq<Segment>,
    acklist: seq<(u32, u32)>)
  {
    function Mss(): (n: nat)
      ensures n >= 26
    {
      mtu - OVERHEAD
    }
  }

  /** What a call may find outside the endpoint: successive clock readings, and the
      congestion window and retransmission timeout, which are arbitrary here. */
  datatype Env = Env(clock: nat -> u32, cwnd: u32, rto: u32)

  function New(conv: u32): Endpoint {
    Endpoint(conv, MTU_DEFAULT, false, 0, 0, 0, WND_DEFAULT, WND_DEFAULT, WND_DEFAULT,
             false, false, 0, 0, 0, 0, [], [], [], [], [])
  }

  // ---- Receiving side ----

  function Bytes(q: seq<Segment>): seq<byte> {
    if q == [] then [] else q[0].data + Bytes(q[1..])
  }

  /** How many segments from the front make up what `recv` pops. */
  function MessageLength(q: seq<Segment>): (n: nat)
    ensures n <= |q|
  {
    if q == [] then 0 else if q[0].frg == 0 then 1 else 1 + MessageLength(q[1..])
  }

  /** Bytes of the message `recv` would pop, -1 when none is complete. */
  function MessageSize(q: seq<Segment>): int {
    if q == [] then -1
    else if |q| < q[0].frg as int + 1 then -1
    else |Bytes(q[..MessageLength(q)])|
  }

  /** ... as `peek_size` reports it, narrowed to `i32`. */
  function PeekSize(q: seq<Segment>): int {
    AsI32(MessageSize(q))
  }

  /** `recv` trusts the narrowed size: the message must fit wherever that size does. */
  predicate CopyFits(q: seq<Segment>, capacity: nat) {
    0 <= PeekSize(q) <= capacity ==> MessageSize(q) <= capacity
  }

  /** How many segments of `buf` follow on from `nxt` without a gap, up to `room`. */
  function ReadyCount(buf: seq<Segment>, nxt: u32, room: nat): (n: nat)
    ensures n <= |buf| && n <= room
  {
    if buf != [] && buf[0].sn == nxt && room > 0 then 1 + ReadyCount(buf[1..], Wrap(nxt + 1), room - 1) else 0
  }

  function MoveReady(k: Endpoint): Endpoint {
    var n := ReadyCount(k.rcvBuf, k.rcvNxt, Max(0, k.rcvWnd - |k.rcvQueue|));
    k.(rcvBuf := k.rcvBuf[n..], rcvQueue := k.rcvQueue + k.rcvBuf[..n], rcvNxt := Wrap(k.rcvNxt + n))
  }

  datatype Received = Received(k: Endpoint, code: int, data: seq<byte>)

  function Recv(k: Endpoint, capacity: nat): Received {
    var size := PeekSize(k.rcvQueue);
    if size < 0 then Received(k, -1, [])
    else if size > capacity then Received(k, -2, [])
    else
      var n := MessageLength(k.rcvQueue);
      var moved := MoveReady(k.(rcvQueue := k.rcvQueue[n..]));
      var tell := |moved.rcvQueue| < k.rcvWnd && |k.rcvQueue| >= k.rcvWnd;
      Received(if tell then moved.(askTell := true) else moved, size, Bytes(k.rcvQueue[..n]))
  }

  /** Position of `seg` in the out-of-order buffer, looked for from the back. */
  function Insert(buf: seq<Segment>, seg: Segment): seq<Segment> {
    if buf == [] then [seg]
    else
      var last := |buf| - 1;
      if buf[last].sn == seg.sn then buf
      else if TimeDiff(seg.sn, buf[last].sn) > 0 then buf + [seg]
      else Insert(buf[..last], seg) + [buf[last]]
  }

  // ---- Sending side ----

  function Fragments(buf: seq<byte>, mss: nat, count: nat, stream: bool): seq<Segment>
    requires count <= 255
  {
    if count == 0 then []
    else
      var size := Min(|buf|, mss);
      [BLANK.(frg := if stream then 0 else count - 1, data := buf[..size])]
      + Fragments(buf[size..], mss, count - 1, stream)
  }

  /** How much of `buf` stream mode appends to the last queued segment. */
  function Absorbed(k: Endpoint, buf: seq<byte>): (n: nat)
    ensures n <= |buf|
  {
    if k.stream && k.sndQueue != [] && |k.sndQueue[|k.sndQueue| - 1].data| < k.Mss()
    then Min(k.Mss() - |k.sndQueue[|k.sndQueue| - 1].data|, |buf|)
    else 0
  }

  function Absorb(k: Endpoint, buf: seq<byte>): Endpoint {
    var n := Absorbed(k, buf);
    if n == 0 then k
    else
      var last := |k.sndQueue| - 1;
      var seg := k.sndQueue[last];
      k.(sndQueue := k.sndQueue[last := seg.(data := seg.data + buf[..n])])
  }

  function FragmentCount(length: nat, mss: nat): nat
    requires mss > 0
  {
    if length <= mss then 1 else (length + mss - 1) / mss
  }

  /** The new state and the return code. */
  function Send(k: Endpoint, buf: seq<byte>): (Endpoint, int)
  {
    if buf == [] then (k, -1)
    else
      var k1 := Absorb(k, buf);
      var rest := buf[Absorbed(k, buf)..];
      if rest == [] then (k1, 0)
      else
        var count := FragmentCount(|rest|, k.Mss());
        if count > 255 then (k1, -2)
        else (k1.(sndQueue := k1.sndQueue + Fragments(rest, k.Mss(), count, k.stream)), 0)
  }

  function DropBelow(buf: seq<Segment>, una: u32): seq<Segment> {
    if buf != [] && TimeDiff(una, buf[0].sn) > 0 then DropBelow(buf[1..], una) else buf
  }

  /** `parse_una` followed by `shrink_buf`. */
  function Acknowledge(k: Endpoint, una: u32): Endpoint {
    var buf := DropBelow(k.sndBuf, una);
    k.(sndBuf := buf, sndUna := if buf == [] then k.sndNxt else buf[0].sn)
  }

  predicate InFlight(k: Endpoint, sn: u32) {
    TimeDiff(sn, k.sndUna) >= 0 && TimeDiff(sn, k.sndNxt) < 0
  }

  function MarkAcked(buf: seq<Segment>, sn: u32): seq<Segment> {
    seq(|buf|, i requires 0 <= i < |buf| =>
      if buf[i].sn == sn then buf[i].(acked := true, data := []) else buf[i])
  }

  function CountFastAck(buf: seq<Segment>, sn: u32, ts: u32): seq<Segment> {
    seq(|buf|, i requires 0 <= i < |buf| =>
      if TimeDiff(sn, buf[i].sn) > 0 && TimeDiff(buf[i].ts, ts) <= 0
      then buf[i].(fastack := Wrap(buf[i].fastack + 1)) else buf[i])
  }

  function ParseAck(k: Endpoint, sn: u32, ts: u32): Endpoint {
    if InFlight(k, sn) then k.(sndBuf := CountFastAck(MarkAcked(k.sndBuf, sn), sn, ts)) else k
  }

  // ---- Input ----

  function ParsePush(k: Endpoint, seg: Segment): Endpoint {
    if TimeDiff(seg.sn, Wrap(k.rcvNxt + k.rcvWnd)) >= 0 then k
    else
      var k1 := k.(acklist := k.acklist + [(seg.sn, seg.ts)]);
      if TimeDiff(seg.sn, k.rcvNxt) < 0 then k1
      else MoveReady(k1.(rcvBuf := Insert(k1.rcvBuf, seg)))
  }

  predicate KnownCommand(cmd: byte) {
    cmd == CMD_PUSH || cmd == CMD_ACK || cmd == CMD_WASK || cmd == CMD_WINS
  }

  /** One well-formed segment of a datagram. */
  function Process(k: Endpoint, seg: Segment, regular: bool): Endpoint {
    var k1 := Acknowledge(if regular then k.(rmtWnd := seg.wnd) else k, seg.una);
    if seg.cmd == CMD_ACK then ParseAck(k1, seg.sn, seg.ts)
    else if seg.cmd == CMD_PUSH then ParsePush(k1, seg)
    else if seg.cmd == CMD_WASK then k1.(askTell := true)
    else k1
  }

  predicate Slides(k: Endpoint, una: u32) {
    k.sndBuf != [] && TimeDiff(una, k.sndBuf[0].sn) > 0
  }

  datatype Parsed = Parsed(k: Endpoint, slides: bool, code: int)

  /** The parsing loop of `input`; segments before a malformed one keep their effect. */
  function InputLoop(k: Endpoint, data: seq<byte>, regular: bool, slides: bool): Parsed
    decreases |data|
  {
    if |data| < OVERHEAD then Parsed(k, slides, 0)
    else
      var head := HeadOf(data);
      var rest := data[OVERHEAD..];
      var n := LengthOf(data);
      if head.conv != k.conv then Parsed(k, slides, -1)
      else if |rest| < n then Parsed(k, slides, -2)
      else if !KnownCommand(head.cmd) then Parsed(k, slides, -3)
      else InputLoop(Process(k, head.(data := rest[..n]), regular), rest[n..], regular,
                     slides || Slides(k, head.una))
  }

  /** State, return code and datagrams of one call. */
  datatype Outcome = Outcome(k: Endpoint, code: int, out: seq<seq<Segment>>)

  function Input(k: Endpoint, data: seq<byte>, regular: bool, ackNoDelay: bool, env: Env): Outcome {
    if |data| < OVERHEAD then Outcome(k, -1, [])
    else
      var r := InputLoop(k, data, regular, false);
      if r.code != 0 then Outcome(r.k, r.code, [])
      else if r.slides then Flush(r.k, false, env)
      else if ackNoDelay && r.k.acklist != [] then Flush(r.k, true, env)
      else Outcome(r.k, 0, [])
  }

  // ---- Flush ----

  function Unused(k: Endpoint): u16 {
    if |k.rcvQueue| < k.rcvWnd then (k.rcvWnd - |k.rcvQueue|) % 0x1_0000 else 0
  }

  /** Datagrams already emitted and the segments of the one being filled. */
  datatype Packer = Packer(out: seq<seq<Segment>>, cur: seq<Segment>)

  function Room(p: Packer, space: nat, mtu: nat): Packer {
    if WireSize(p.cur) + space > mtu then Packer(p.out + [p.cur], []) else p
  }

  function Add(p: Packer, seg: Segment): Packer {
    p.(cur := p.cur + [seg])
  }

  function Close(p: Packer): seq<seq<Segment>> {
    if p.cur == [] then p.out else p.out + [p.cur]
  }

  function PutAcks(acks: seq<(u32, u32)>, i: nat, ctrl: Segment, rcvNxt: u32, mtu: nat, p: Packer): Packer
    requires i <= |acks|
    decreases |acks| - i
  {
    if i == |acks| then p
    else
      var p1 := Room(p, OVERHEAD, mtu);
      var (sn, ts) := acks[i];
      PutAcks(acks, i + 1, ctrl, rcvNxt, mtu,
              if TimeDiff(sn, rcvNxt) >= 0 || i == |acks| - 1 then Add(p1, ctrl.(sn := sn, ts := ts)) else p1)
  }

  /** The window-probe timer, run only while the peer advertises a zero window. */
  function Probe(k: Endpoint, current: u32): Endpoint {
    if k.rmtWnd != 0 then k.(tsProbe := 0, probeWait := 0)
    else if k.probeWait == 0 then k.(probeWait := PROBE_INIT, tsProbe := Wrap(current + PROBE_INIT))
    else if TimeDiff(current, k.tsProbe) < 0 then k
    else
      var wait := Max(k.probeWait, PROBE_INIT);
      var longer := Min(wait + wait / 2, PROBE_LIMIT);
      k.(probeWait := longer, tsProbe := Wrap(current + longer), askSend := true)
  }

  function PutProbe(ask: bool, ctrl: Segment, mtu: nat, p: Packer): Packer {
    if ask then Add(Room(p, OVERHEAD, mtu), ctrl) else p
  }

  function SendWindow(k: Endpoint, cwnd: u32): u32 {
    Min(cwnd, Min(k.sndWnd, k.rmtWnd))
  }

  /** Segments as they enter the send buffer, numbered from `sn` on. */
  function Number(q: seq<Segment>, conv: u32, sn: u32): (r: seq<Segment>)
    ensures |r| == |q|
  {
    if q == [] then []
    else [q[0].(conv := conv, cmd := CMD_PUSH, sn := sn)] + Number(q[1..], conv, Wrap(sn + 1))
  }

  /** How many queued segments get a sequence number: as many as the window has room for. */
  function Admitted(k: Endpoint, wnd: u32): nat {
    Min(|k.sndQueue|, Max(0, wnd - |k.sndBuf|))
  }

  function Admit(k: Endpoint, wnd: u32): Endpoint {
    var n := Admitted(k, wnd);
    k.(sndQueue := k.sndQueue[n..], sndNxt := Wrap(k.sndNxt + n),
       sndBuf := k.sndBuf + Number(k.sndQueue[..n], k.conv, k.sndNxt))
  }

  /** The constants of one pass over the send buffer. */
  datatype Pass = Pass(wnd: u16, una: u32, mtu: nat, rto: u32, resent: u32, idle: bool,
                       nodelay: u32, clock: nat -> u32)

  predicate Due(seg: Segment, w: Pass, current: u32) {
    || seg.xmit == 0
    || seg.fastack >= w.resent
    || (seg.fastack > 0 && w.idle)
    || TimeDiff(current, seg.resendts) >= 0
  }

  /** Timer fields of a segment that is due. */
  function Rearm(seg: Segment, w: Pass, current: u32): Segment {
    var rto := if seg.xmit == 0 || seg.fastack >= w.resent || (seg.fastack > 0 && w.idle) then w.rto
               else if w.nodelay == 0 then Wrap(seg.rto + w.rto) else Wrap(seg.rto + w.rto / 2);
    seg.(rto := rto, resendts := Wrap(current + rto),
         fastack := if seg.xmit == 0 then seg.fastack else 0)
  }

  function Stamp(seg: Segment, w: Pass, now: u32): Segment {
    seg.(xmit := Wrap(seg.xmit + 1), ts := now, wnd := w.wnd, una := w.una)
  }

  /** One buffered segment in the transmission pass; each emission reads the clock again. */
  datatype Visited = Visited(seg: Segment, current: u32, tick: nat, p: Packer)

  function Visit(seg: Segment, w: Pass, current: u32, tick: nat, p: Packer): Visited {
    if seg.acked || !Due(seg, w, current) then Visited(seg, current, tick, p)
    else
      var sent := Stamp(Rearm(seg, w, current), w, w.clock(tick));
      Visited(sent, w.clock(tick), tick + 1, Add(Room(p, OVERHEAD + |seg.data|, w.mtu), OnWire(sent)))
  }

  /** The (re)transmission pass. */
  function Sweep(todo: seq<Segment>, w: Pass, current: u32, tick: nat, p: Packer): (seq<Segment>, Packer) {
    if todo == [] then ([], p)
    else
      var v := Visit(todo[0], w, current, tick, p);
      var (buf, p') := Sweep(todo[1..], w, v.current, v.tick, v.p);
      ([v.seg] + buf, p')
  }

  function Control(k: Endpoint): Segment {
    BLANK.(conv := k.conv, cmd := CMD_ACK, wnd := Unused(k), una := k.rcvNxt)
  }

  /** Probe segments reuse the sn and ts of the last ACK written. */
  function AfterAcks(k: Endpoint): Segment {
    if k.acklist == [] then Control(k)
    else Control(k).(sn := k.acklist[|k.acklist| - 1].0, ts := k.acklist[|k.acklist| - 1].1)
  }

  function Resent(fastresend: int): u32 {
    if fastresend <= 0 then 0xFFFF_FFFF else Min(fastresend, 0x7FFF_FFFF)
  }

  function AckPacker(k: Endpoint): Packer {
    PutAcks(k.acklist, 0, Control(k), k.rcvNxt, k.mtu, Packer([], []))
  }

  /** The packer after ACKs and window probes. */
  function Announced(k: Endpoint, env: Env): Packer {
    var k1 := Probe(k, env.clock(0));
    var p := PutProbe(k1.askSend, AfterAcks(k).(cmd := CMD_WASK), k.mtu, AckPacker(k));
    PutProbe(k1.askTell, AfterAcks(k).(cmd := CMD_WINS), k.mtu, p)
  }

  function Probed(k: Endpoint, env: Env): Endpoint {
    Probe(k.(acklist := []), env.clock(0)).(askSend := false, askTell := false)
  }

  /** The endpoint once probes are answered and the send window is refilled. */
  function Refilled(k: Endpoint, env: Env): Endpoint {
    Admit(Probed(k, env), SendWindow(k, env.cwnd))
  }

  function FlushPass(k: Endpoint, env: Env): Pass {
    Pass(Unused(k), k.rcvNxt, k.mtu, env.rto, Resent(k.fastresend),
         Admitted(k, SendWindow(k, env.cwnd)) == 0, k.nodelay, env.clock)
  }

  /** The retransmission pass over the refilled send buffer. */
  function Swept(k: Endpoint, env: Env): (seq<Segment>, Packer) {
    Sweep(Refilled(k, env).sndBuf, FlushPass(k, env), env.clock(1), 2, Announced(k, env))
  }

  function Flush(k: Endpoint, ackOnly: bool, env: Env): Outcome {
    if ackOnly then Outcome(k.(acklist := []), 0, Close(AckPacker(k)))
    else Outcome(Refilled(k, env).(sndBuf := Swept(k, env).0), 0, Close(Swept(k, env).1))
  }
}
