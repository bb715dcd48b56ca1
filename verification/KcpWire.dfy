/** KCP segments and their 24-byte little-endian header. */
module KcpWire {
  import opened Words

  const CMD_PUSH: byte := 81
  const CMD_ACK: byte := 82
  const CMD_WASK: byte := 83
  const CMD_WINS: byte := 84
  const OVERHEAD: nat := 24

  datatype Segment = Segment(
    conv: u32, cmd: byte, frg: byte, wnd: u16, ts: u32, sn: u32, una: u32,
    rto: u32, xmit: u32, resendts: u32, fastack: u32, acked: bool, data: seq<byte>)

  const BLANK: Segment := Segment(0, 0, 0, 0, 0, 0, 0, 0, 0, 0, 0, false, [])

  /** The part of a segment that travels: the receiver rebuilds the rest as zeros. */
  function OnWire(s: Segment): Segment {
    s.(rto := 0, xmit := 0, resendts := 0, fastack := 0, acked := false)
  }

  function Encode(s: Segment): (r: seq<byte>)
    requires |s.data| < TWO32
    ensures |r| == OVERHEAD
  {
    Le32(s.conv) + [s.cmd, s.frg] + Le16(s.wnd) + Le32(s.ts) + Le32(s.sn) + Le32(s.una) + Le32(|s.data|)
  }

  /** Header and data, as `flush` appends them. */
  function Wire(s: Segment): (r: seq<byte>)
    requires |s.data| < TWO32
    ensures |r| == OVERHEAD + |s.data|
  {
    Encode(s) + s.data
  }

  /** The fields `input` reads from the front of a datagram; data is still empty. */
  function HeadOf(d: seq<byte>): Segment
    requires |d| >= OVERHEAD
  {
    BLANK.(conv := FromLe32(d[0..4]), cmd := d[4], frg := d[5], wnd := FromLe16(d[6..8]),
           ts := FromLe32(d[8..12]), sn := FromLe32(d[12..16]), una := FromLe32(d[16..20]))
  }

  function LengthOf(d: seq<byte>): u32
    requires |d| >= OVERHEAD
  {
    FromLe32(d[20..24])
  }

  /** Four bytes as a number, the low one first. */
  function Word(b: seq<byte>, at: nat): nat
    requires at + 4 <= |b|
  {
    b[at] + 0x100 * (b[at + 1] + 0x100 * (b[at + 2] + 0x100 * b[at + 3] as int))
  }

  lemma WordOf(x: u32)
    ensures Word(Le32(x), 0) == x
  {
    assert x == x % 256 + 256 * (x / 0x100);
    assert x / 0x100 == x / 0x100 % 256 + 256 * (x / 0x1_0000);
    assert x / 0x1_0000 == x / 0x1_0000 % 256 + 256 * (x / 0x100_0000);
  }

  /** Where each field stands in the 24 bytes, every number with its low byte first. */
  lemma HeaderLayout(s: Segment)
    requires |s.data| < TWO32
    ensures var h := Encode(s);
            && Word(h, 0) == s.conv && h[4] == s.cmd && h[5] == s.frg && h[6] as int + 0x100 * h[7] as int == s.wnd
            && Word(h, 8) == s.ts && Word(h, 12) == s.sn && Word(h, 16) == s.una && Word(h, 20) == |s.data|
  {
    hide Le32;
    WordOf(s.conv);
    WordOf(s.ts);
    WordOf(s.sn);
    WordOf(s.una);
    WordOf(|s.data|);
  }

  /** Decoding undoes encoding, whatever follows in the datagram. */
  lemma DecodeEncode(s: Segment, rest: seq<byte>)
    requires |s.data| < TWO32
    ensures var d := Wire(s) + rest;
            && LengthOf(d) == |s.data|
            && HeadOf(d).(data := d[OVERHEAD..][..LengthOf(d)]) == OnWire(s)
            && d[OVERHEAD..][LengthOf(d)..] == rest
  {
    hide Le32, Le16, FromLe32, FromLe16;
    var d, tail := Wire(s) + rest, s.data + rest;
    Le32RoundTrip(s.conv);
    Le16RoundTrip(s.wnd);
    Le32RoundTrip(s.ts);
    Le32RoundTrip(s.sn);
    Le32RoundTrip(s.una);
    Le32RoundTrip(|s.data|);
    assert d == Le32(s.conv) + [s.cmd, s.frg] + Le16(s.wnd) + Le32(s.ts) + Le32(s.sn) + Le32(s.una)
                + Le32(|s.data|) + tail;
    assert d[0..4] == Le32(s.conv);
    assert d[6..8] == Le16(s.wnd);
    assert d[8..12] == Le32(s.ts);
    assert d[12..16] == Le32(s.sn);
    assert d[16..20] == Le32(s.una);
    assert d[20..24] == Le32(|s.data|);
    assert d[OVERHEAD..] == s.data + rest;
    assert d[OVERHEAD..][..|s.data|] == s.data;
  }

  /** Encoding undoes decoding: no two datagram prefixes decode to the same segment. */
  lemma EncodeDecode(d: seq<byte>)
    requires |d| >= OVERHEAD && LengthOf(d) <= |d[OVERHEAD..]|
    ensures var s := HeadOf(d).(data := d[OVERHEAD..][..LengthOf(d)]);
            Wire(s) == d[..OVERHEAD + LengthOf(d)]
  {
    var n := LengthOf(d);
    var s := HeadOf(d).(data := d[OVERHEAD..][..n]);
    FromLe32RoundTrip(d[0..4]);
    FromLe16RoundTrip(d[6..8]);
    FromLe32RoundTrip(d[8..12]);
    FromLe32RoundTrip(d[12..16]);
    FromLe32RoundTrip(d[16..20]);
    FromLe32RoundTrip(d[20..24]);
    assert d[..OVERHEAD + n] == d[0..4] + [d[4], d[5]] + d[6..8] + d[8..12] + d[12..16] + d[16..20]
                                + d[20..24] + d[OVERHEAD..][..n];
  }

  predicate Sized(segs: seq<Segment>) {
    forall i :: 0 <= i < |segs| ==> |segs[i].data| < TWO32
  }

  /** A datagram is the encodings of its segments, back to back. */
  function EncodeAll(segs: seq<Segment>): seq<byte>
    requires Sized(segs)
  {
    if segs == [] then [] else Wire(segs[0]) + EncodeAll(segs[1..])
  }

  function WireSize(segs: seq<Segment>): nat {
    if segs == [] then 0 else OVERHEAD + |segs[0].data| + WireSize(segs[1..])
  }

  lemma {:induction false} WireSizeAppend(segs: seq<Segment>, s: Segment)
    ensures WireSize(segs + [s]) == WireSize(segs) + OVERHEAD + |s.data|
  {
    if segs == [] {
      assert segs + [s] == [s];
    } else {
      assert (segs + [s])[1..] == segs[1..] + [s];
      WireSizeAppend(segs[1..], s);
    }
  }

  lemma {:induction false} EncodeAllAppend(segs: seq<Segment>, s: Segment)
    requires Sized(segs) && |s.data| < TWO32
    ensures EncodeAll(segs + [s]) == EncodeAll(segs) + Wire(s)
  {
    if segs == [] {
      assert segs + [s] == [s];
    } else {
      assert (segs + [s])[1..] == segs[1..] + [s];
      EncodeAllAppend(segs[1..], s);
    }
  }

  lemma {:induction false} EncodeAllSize(segs: seq<Segment>)
    requires Sized(segs)
    ensures |EncodeAll(segs)| == WireSize(segs)
    ensures segs != [] ==> WireSize(segs) >= OVERHEAD
  {
    if segs != [] {
      EncodeAllSize(segs[1..]);
    }
  }
}
