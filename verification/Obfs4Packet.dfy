/** obfs4 packets inside frames, and what a list of packets delivers to the reader. */
module Obfs4Packet {
  import opened Words
  import opened Obfs4Framing

  const PACKET_OVERHEAD: nat := 3
  const MAX_PACKET_PAYLOAD_LENGTH: nat := 1427
  const TYPE_PAYLOAD: byte := 0

  /** What `make_packet` is asked to send. */
  datatype Packet = Packet(kind: byte, data: seq<byte>, pad: nat) {
    predicate Fits() {
      |data| + pad <= MAX_PACKET_PAYLOAD_LENGTH
    }
  }

  function MakePacket(p: Packet): (r: seq<byte>)
    requires p.Fits()
    ensures |r| == PACKET_OVERHEAD + |p.data| + p.pad <= MAXIMUM_FRAME_PAYLOAD_LENGTH
  {
    [p.kind] + Be16(|p.data|) + p.data + Zeros(p.pad)
  }

  datatype Parsed = Ok(kind: byte, payload: seq<byte>) | ShortPacket(n: nat) | LongPayload(n: nat)

  function ParsePacket(pkt: seq<byte>): Parsed {
    if |pkt| < PACKET_OVERHEAD then ShortPacket(|pkt|)
    else
      var n := FromBe16(pkt[1..3]);
      if n > |pkt| - PACKET_OVERHEAD then LongPayload(n)
      else Ok(pkt[0], pkt[PACKET_OVERHEAD..PACKET_OVERHEAD + n])
  }

  /** Parsing gives back kind and data; padding disappears. */
  lemma ParseMake(p: Packet)
    requires p.Fits()
    ensures ParsePacket(MakePacket(p)) == Ok(p.kind, p.data)
  {
    var r := MakePacket(p);
    Be16RoundTrip(|p.data|);
    assert r[1..3] == Be16(|p.data|);
    assert r[3..3 + |p.data|] == p.data;
  }

  /** On the wire: the kind, the length of the data with the high byte first, the data, zeros. */
  lemma PacketLayout(p: Packet)
    requires p.Fits()
    ensures var r := MakePacket(p);
            && r[0] == p.kind && r[1] as int * 256 + r[2] as int == |p.data|
            && r[3..3 + |p.data|] == p.data && forall i :: 3 + |p.data| <= i < |r| ==> r[i] == 0
  {
    BytesOf(|p.data|);
  }

  /** What is made of any bytes at all. Whatever the kind, what follows the announced data is
      padding; less than announced is refused, and so is less than a header. */
  lemma ParseAnswers(kind: byte, n: u16, body: seq<byte>)
    ensures ParsePacket([kind] + Be16(n) + body) == if n > |body| then LongPayload(n) else Ok(kind, body[..n])
    ensures forall pkt :: |pkt| < 3 ==> ParsePacket(pkt) == ShortPacket(|pkt|)
  {
    hide Be16;
    var r := [kind] + Be16(n) + body;
    Be16RoundTrip(n);
    assert r[1..3] == Be16(n) && (n <= |body| ==> r[3..3 + n] == body[..n]);
  }

  ghost predicate AllFit(ps: seq<Packet>) {
    forall i :: 0 <= i < |ps| ==> ps[i].Fits()
  }

  function Bodies(ps: seq<Packet>): (r: seq<seq<byte>>)
    requires AllFit(ps)
    ensures |r| == |ps| && forall i :: 0 <= i < |ps| ==> r[i] == MakePacket(ps[i])
  {
    seq(|ps|, i requires 0 <= i < |ps| => MakePacket(ps[i]))
  }

  /** The stream bytes carried by packets: data of payload packets, in order. */
  function Text(ps: seq<Packet>): seq<byte> {
    if ps == [] then []
    else Text(ps[..|ps| - 1]) + (if ps[|ps| - 1].kind == TYPE_PAYLOAD then ps[|ps| - 1].data else [])
  }

  lemma TextAppend(ps: seq<Packet>, p: Packet)
    ensures Text(ps + [p]) == Text(ps) + (if p.kind == TYPE_PAYLOAD then p.data else [])
  {
    assert (ps + [p])[..|ps|] == ps;
  }

  lemma {:induction false} TextPrefix(ps: seq<Packet>, n: nat)
    requires n <= |ps|
    ensures Text(ps[..n]) <= Text(ps)
  {
    if n < |ps| {
      assert ps[..|ps| - 1][..n] == ps[..n];
      TextPrefix(ps[..|ps| - 1], n);
    } else {
      assert ps[..n] == ps;
    }
  }

  // ---- The receiving end ----

  /** Every decoded frame is a well-formed packet. */
  ghost predicate Parses(payloads: seq<seq<byte>>) {
    forall i :: 0 <= i < |payloads| ==> ParsePacket(payloads[i]).Ok?
  }

  function Carried(body: seq<byte>): seq<byte> {
    var p := ParsePacket(body);
    if p.Ok? && p.kind == TYPE_PAYLOAD then p.payload else []
  }

  /** What the reader appends to `decoded` for a list of frames. */
  function Received(payloads: seq<seq<byte>>): seq<byte> {
    if payloads == [] then [] else Carried(payloads[0]) + Received(payloads[1..])
  }

  lemma {:induction false} ReceivedAppend(a: seq<seq<byte>>, b: seq<seq<byte>>)
    ensures Received(a + b) == Received(a) + Received(b)
  {
    if a == [] {
      assert a + b == b;
    } else {
      assert (a + b)[1..] == a[1..] + b;
      ReceivedAppend(a[1..], b);
    }
  }

  lemma ReceivedOne(body: seq<byte>)
    ensures Received([body]) == Carried(body)
  {
    assert Carried(body) + [] == Carried(body);
  }

  lemma CarriedMake(p: Packet)
    requires p.Fits()
    ensures Carried(MakePacket(p)) == (if p.kind == TYPE_PAYLOAD then p.data else [])
  {
    ParseMake(p);
  }

  lemma BodiesParse(ps: seq<Packet>)
    requires AllFit(ps)
    ensures Parses(Bodies(ps))
  {
    hide ParsePacket, MakePacket;
    forall i | 0 <= i < |ps| ensures ParsePacket(Bodies(ps)[i]).Ok? {
      ParseMake(ps[i]);
    }
  }

  /** The bodies of packets deliver exactly their text. */
  lemma {:induction false} BodiesDeliver(ps: seq<Packet>)
    requires AllFit(ps)
    ensures Parses(Bodies(ps)) && Received(Bodies(ps)) == Text(ps)
  {
    hide Parses, Received, Carried, MakePacket;
    BodiesParse(ps);
    if ps == [] {
      NothingReceived();
    } else {
      var front, last := ps[..|ps| - 1], ps[|ps| - 1];
      BodiesDeliver(front);
      assert Bodies(ps) == Bodies(front) + [MakePacket(last)];
      ReceivedAppend(Bodies(front), [MakePacket(last)]);
      ReceivedOne(MakePacket(last));
      CarriedMake(last);
    }
  }

  lemma NothingReceived()
    ensures Received([]) == []
  {
  }
}
