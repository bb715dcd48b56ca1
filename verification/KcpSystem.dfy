/** Two KCP endpoints over a network that may drop, duplicate and reorder every datagram
    either of them ever emitted. */
module KcpSystem {
  import opened Words
  import opened KcpWire
  import opened KcpSpec
  import opened KcpInvariant
  import opened KcpDatagram

  /** Segments one endpoint may number in a run, so that `TimeDiff` is integer difference. */
  const LIMIT: int := TWO31 - 0x1_0000

  /** What the reader gets of a segment. */
  datatype Frag = Frag(id: byte, data: seq<byte>)

  function FragOf(s: Segment): Frag {
    Frag(s.frg, s.data)
  }

  function Frags(q: seq<Segment>): (r: seq<Frag>)
    ensures |r| == |q| && forall i :: 0 <= i < |q| ==> r[i] == FragOf(q[i])
  {
    seq(|q|, i requires 0 <= i < |q| => FragOf(q[i]))
  }

  function Flat(fs: seq<Frag>): seq<byte> {
    if fs == [] then [] else fs[0].data + Flat(fs[1..])
  }

  /** An endpoint with what has happened to it so far.
      `hist`: the fragment given to each sequence number. `net`: every datagram emitted.
      `sent`, `msgs`: bytes accepted by `send`, and the arguments of its successful calls.
      `read`, `got`: fragments popped by `recv`, and what each successful call returned.
      `out`, `pending`: bytes `KcpSession::read` returned, and the tail it still holds. */
  datatype Node = Node(
    k: Endpoint, hist: seq<Frag>, net: set<seq<Segment>>,
    sent: seq<byte>, msgs: seq<seq<byte>>,
    read: seq<Frag>, got: seq<seq<byte>>,
    out: seq<byte>, pending: seq<byte>)

  datatype Sys = Sys(a: Node, b: Node)

  datatype Step =
    | SendStep(buf: seq<byte>)
    | RecvStep(capacity: nat)
    | ReadStep(capacity: nat)
    | FlushStep(ackOnly: bool, env: Env)
    | InputStep(dg: seq<Segment>, regular: bool, ackNoDelay: bool, env: Env)

  datatype Move = Move(left: bool, step: Step)

  // ---- What a step does to the endpoint that takes it ----

  /** Bytes of `buf` that `send` took: all, none, or the part absorbed before a -2. */
  function Accepted(k: Endpoint, buf: seq<byte>): (n: nat)
    ensures n <= |buf|
  {
    if buf == [] || Send(k, buf).1 == 0 then |buf| else Absorbed(k, buf)
  }

  function DoSend(n: Node, buf: seq<byte>): Node
  {
    var (k, code) := Send(n.k, buf);
    n.(k := k, sent := n.sent + buf[..Accepted(n.k, buf)],
       msgs := if code == 0 then n.msgs + [buf] else n.msgs)
  }

  function DoRecv(n: Node, capacity: nat): Node {
    var r := Recv(n.k, capacity);
    if r.code < 0 then n
    else n.(k := r.k, got := n.got + [r.data],
            read := n.read + Frags(n.k.rcvQueue[..MessageLength(n.k.rcvQueue)]))
  }

  /** `KcpSession::read`: the pending tail first, then one whole message. */
  function DoRead(n: Node, capacity: nat): Node {
    if n.pending != [] then
      var m := Min(|n.pending|, capacity);
      n.(out := n.out + n.pending[..m], pending := n.pending[m..])
    else
      var size := PeekSize(n.k.rcvQueue);
      if size <= 0 then n
      else
        var data := Recv(n.k, Max(capacity, size)).data;
        var m := Min(|data|, capacity);
        DoRecv(n, Max(capacity, size)).(out := n.out + data[..m], pending := data[m..])
  }

  /** Datagrams go out and the fragments just numbered become history. */
  function Emit(n: Node, o: Outcome): Node {
    var moved := Min(Max(0, |n.k.sndQueue| - |o.k.sndQueue|), |n.k.sndQueue|);
    n.(k := o.k, net := n.net + (set dg | dg in o.out), hist := n.hist + Frags(n.k.sndQueue[..moved]))
  }

  function DoStep(n: Node, step: Step): Node
  {
    match step
    case SendStep(buf) => DoSend(n, buf)
    case RecvStep(capacity) =>
      if n.pending != [] || Recv(n.k, capacity).code < 0 then n
      else DoRecv(n, capacity).(out := n.out + Recv(n.k, capacity).data)
    case ReadStep(capacity) => DoRead(n, capacity)
    case FlushStep(ackOnly, env) => Emit(n, Flush(n.k, ackOnly, env))
    case InputStep(dg, regular, ackNoDelay, env) =>
      if Sized(dg) then Emit(n, Input(n.k, EncodeAll(dg), regular, ackNoDelay, env)) else n
  }

  /** Only datagrams the peer emitted arrive; a run stays below `LIMIT` segments. */
  predicate Enabled(n: Node, peer: Node, step: Step)
  {
    && (step.InputStep? ==> step.dg in peer.net)
    && |DoStep(n, step).hist| <= LIMIT
  }

  /** A move that is not enabled does nothing. */
  function Next(s: Sys, m: Move): Sys
  {
    if m.left then
      if Enabled(s.a, s.b, m.step) then s.(a := DoStep(s.a, m.step)) else s
    else
      if Enabled(s.b, s.a, m.step) then s.(b := DoStep(s.b, m.step)) else s
  }
}
