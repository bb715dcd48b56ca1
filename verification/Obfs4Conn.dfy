/** An obfs4 connection's two halves: the writer that pads, splits and delays, and the
    reader that decodes what has arrived. */
module Obfs4Conn {
  import opened Words
  import opened Wrappers
  import F = Obfs4Framing
  import opened Obfs4Packet
  import opened Obfs4Decoding
  import S = Obfs4Stream

  const SEGMENT: nat := F.MAXIMUM_SEGMENT_LENGTH
  const HEADER_LENGTH: nat := F.FRAME_OVERHEAD + PACKET_OVERHEAD
  const MAX_ZERO_LENGTH_SAMPLES: nat := 64

  datatype IatMode = Plain | Standard | Paranoid

  // ---- Frames of a list of packets ----

  lemma {:induction false} WireAppend(k: F.Keys, from: nat, ps: seq<seq<byte>>, p: seq<byte>)
    requires from + |ps| + 1 < F.TWO64
    ensures F.WireFrom(k, from, ps + [p]) == F.WireFrom(k, from, ps) + F.FrameAt(k, from + |ps|, p)
    decreases |ps|
  {
    hide F.FrameAt;
    if ps == [] {
      assert ps + [p] == [p];
      assert F.WireFrom(k, from, [p]) == F.FrameAt(k, from, p) + F.WireFrom(k, from + 1, []);
    } else {
      assert (ps + [p])[1..] == ps[1..] + [p];
      WireAppend(k, from + 1, ps[1..], p);
    }
  }

  /** All the bytes of a connection that has framed `ps`. */
  function Wire(k: F.Keys, ps: seq<Packet>): seq<byte>
    requires AllFit(ps) && |ps| < F.TWO64
  {
    F.WireFrom(k, 0, Bodies(ps))
  }

  function FrameLength(p: Packet): nat {
    F.FRAME_OVERHEAD + PACKET_OVERHEAD + |p.data| + p.pad
  }

  lemma FrameSize(k: F.Keys, ps: seq<Packet>, p: Packet)
    requires F.Sound(k) && AllFit(ps) && p.Fits() && |ps| + 1 < F.TWO64
    ensures AllFit(ps + [p])
    ensures Wire(k, ps + [p]) == Wire(k, ps) + F.FrameAt(k, |ps|, MakePacket(p))
    ensures |Wire(k, ps + [p])| == |Wire(k, ps)| + FrameLength(p)
  {
    WireAppend(k, 0, Bodies(ps), MakePacket(p));
    assert Bodies(ps + [p]) == Bodies(ps) + [MakePacket(p)];
  }

  // ---- Padding ----

  /** How many bytes `pad_burst` is short of the target. */
  function Gap(pending: nat, target: nat): nat
    requires target <= SEGMENT
  {
    var tail := pending % SEGMENT;
    if target >= tail then target - tail else SEGMENT - tail + target
  }

  /** The packets `pad_burst` appends. */
  function Padding(gap: nat): (ps: seq<Packet>)
    requires gap <= SEGMENT
    ensures AllFit(ps) && forall i :: 0 <= i < |ps| ==> ps[i].kind == TYPE_PAYLOAD && ps[i].data == []
  {
    if gap > HEADER_LENGTH then [Packet(TYPE_PAYLOAD, [], gap - HEADER_LENGTH)]
    else if gap > 0 then
      [Packet(TYPE_PAYLOAD, [], MAX_PACKET_PAYLOAD_LENGTH), Packet(TYPE_PAYLOAD, [], gap)]
    else []
  }

  function PaddingLength(gap: nat): nat {
    if gap > HEADER_LENGTH || gap == 0 then gap else SEGMENT + HEADER_LENGTH + gap
  }

  lemma GapBound(pending: nat, target: nat)
    requires target <= SEGMENT
    ensures Gap(pending, target) <= SEGMENT
  {
  }

  /** The padded burst ends on the target, or one frame header past it when the gap is too
      small for a frame of its own. */
  lemma PaddedLength(pending: nat, target: nat)
    requires target <= SEGMENT
    ensures var gap := Gap(pending, target);
            (pending + PaddingLength(gap)) % SEGMENT
              == (if 0 < gap <= HEADER_LENGTH then target + HEADER_LENGTH else target) % SEGMENT
  {
    var q, tail := pending / SEGMENT, pending % SEGMENT;
    var gap := Gap(pending, target);
    assert pending == SEGMENT * q + tail;
    if target >= tail {
      assert pending + gap == SEGMENT * q + target;
    } else {
      assert pending + gap == SEGMENT * (q + 1) + target;
    }
  }

  // ---- Writer ----

  function Chunk(b: seq<byte>): nat {
    Min(|b|, MAX_PACKET_PAYLOAD_LENGTH)
  }

  /** The packets of a payload, without padding. */
  function Cut(b: seq<byte>): (ps: seq<Packet>)
    ensures AllFit(ps)
    decreases |b|
  {
    if b == [] then [] else [Packet(TYPE_PAYLOAD, b[..Chunk(b)], 0)] + Cut(b[Chunk(b)..])
  }

  /** Bytes on the wire for `b` before padding. */
  function CutLength(b: seq<byte>): nat
    decreases |b|
  {
    if b == [] then 0 else HEADER_LENGTH + Chunk(b) + CutLength(b[Chunk(b)..])
  }

  lemma {:induction false} CutText(ps: seq<Packet>, b: seq<byte>)
    ensures Text(ps + Cut(b)) == Text(ps) + b
    decreases |b|
  {
    hide Text;
    if b == [] {
      assert ps + Cut(b) == ps && Text(ps) + b == Text(ps);
    } else {
      var head, tail := b[..Chunk(b)], b[Chunk(b)..];
      var p := Packet(TYPE_PAYLOAD, head, 0);
      TextAppend(ps, p);
      CutText(ps + [p], tail);
      hide Cut;
      assert ps + ([p] + Cut(tail)) == ps + [p] + Cut(tail);
      assert Text(ps) + head + tail == Text(ps) + b by {
        assert b == head + tail;
        assert Text(ps) + head + tail == Text(ps) + (head + tail);
      }
      CutCons(b);
    }
  }

  /** What is cut at the same place of the rest and, `n` bytes on, of the whole. */
  lemma CutOfRest(b: seq<byte>, n: nat, at: nat)
    requires n + at <= |b|
    ensures b[n..][at..Min(at + 1427, |b| - n)] == b[n + at..Min(n + at + 1427, |b|)]
  {
  }

  /** Packet `i` carries the `i`-th 1427 bytes, the last what is left; on the wire each takes
      21 bytes more. */
  lemma {:induction false} CutPieces(b: seq<byte>, i: nat)
    ensures (|Cut(b)| - 1) * 1427 < |b| <= |Cut(b)| * 1427 || b == []
    ensures i < |Cut(b)| ==> i * 1427 <= |b| && Cut(b)[i] == Packet(TYPE_PAYLOAD, b[i * 1427..Min(i * 1427 + 1427, |b|)], 0)
    ensures CutLength(b) == |b| + 21 * |Cut(b)|
    decreases |b|
  {
    if b != [] {
      var tail := b[Chunk(b)..];
      CutPieces(tail, if i == 0 then 0 else i - 1);
      if 0 < i < |Cut(b)| {
        CutOfRest(b, 1427, (i - 1) * 1427);
      }
    }
  }

  lemma CutCons(b: seq<byte>)
    requires b != []
    ensures Cut(b) == [Packet(TYPE_PAYLOAD, b[..Chunk(b)], 0)] + Cut(b[Chunk(b)..])
  {
  }

  /** Padding carries no stream bytes. */
  lemma PaddingText(ps: seq<Packet>, gap: nat)
    requires gap <= SEGMENT
    ensures Text(ps + Padding(gap)) == Text(ps)
  {
    if gap > HEADER_LENGTH {
      TextAppend(ps, Padding(gap)[0]);
    } else if gap > 0 {
      var first, second := Padding(gap)[0], Padding(gap)[1];
      TextAppend(ps, first);
      TextAppend(ps + [first], second);
      assert ps + Padding(gap) == ps + [first] + [second];
    } else {
      assert ps + [] == ps;
    }
  }

  /** How a `write` ended: everything written, still waiting for a usable length when the
      samples given ran out, or out of nonces. */
  datatype Progress = Done | Waiting | Wrapped

  /** How long the burst is once it has been padded towards `target`. */
  function Padded(pending: nat, target: nat): (n: nat)
    requires target <= SEGMENT
    ensures n >= pending
  {
    if 0 < target && pending < target then pending + PaddingLength(Gap(pending, target)) else pending
  }

  predicate Samples(lens: seq<nat>) {
    forall i :: 0 <= i < |lens| ==> lens[i] <= SEGMENT
  }

  function ZeroCount(lens: seq<nat>): nat {
    multiset(lens)[0]
  }

  /** What is framed and not written once the samples from `since` to `i` have been passed over,
      each padding towards itself, when `left` was to begin with. */
  function LeftAt(left: nat, lens: seq<nat>, since: nat, i: nat): (n: nat)
    requires since <= i <= |lens| && Samples(lens)
    ensures n >= left
    decreases i
  {
    if i == since then left else Padded(LeftAt(left, lens, since, i - 1), lens[i - 1])
  }

  /** Sample `i` makes no write: it is a zero, and not yet the 65th since the write before, or
      more than is left, and padding has gone past it. */
  predicate Skipped(left: nat, lens: seq<nat>, since: nat, i: nat)
    requires since <= i < |lens| && Samples(lens)
  {
    if lens[i] == 0 then ZeroCount(lens[since..i]) < MAX_ZERO_LENGTH_SAMPLES
    else LeftAt(left, lens, since, i) < lens[i] != LeftAt(left, lens, since, i + 1)
  }

  ghost predicate AllSkipped(left: nat, lens: seq<nat>, since: nat, to: nat)
    requires to <= |lens| && Samples(lens)
  {
    forall i :: since <= i < to ==> Skipped(left, lens, since, i)
  }

  /** One paranoid write: the index of the sample it used, the bytes framed and not yet
      written at that moment, and its length. */
  datatype Turn = Turn(sample: nat, left: nat, length: nat)

  /** Where the samples for turn `i` start, and what is left by then of `all` bytes. */
  function Since(turns: seq<Turn>, i: nat): nat
    requires i <= |turns|
  {
    if i == 0 then 0 else turns[i - 1].sample + 1
  }

  function Before(turns: seq<Turn>, i: nat, all: nat): int
    requires i <= |turns|
  {
    if i == 0 then all else turns[i - 1].left - turns[i - 1].length
  }

  /** A write uses the first sample that is not passed over and is as long as it; a zero means
      an MTU-bounded write. */
  ghost predicate Drawn(t: Turn, left: int, since: nat, lens: seq<nat>)
    requires Samples(lens)
  {
    && 0 <= left && since <= t.sample < |lens| && 0 < t.length <= t.left
    && AllSkipped(left, lens, since, t.sample) && !Skipped(left, lens, since, t.sample)
    && t.left == LeftAt(left, lens, since, t.sample + 1)
    && t.length == if lens[t.sample] > 0 then lens[t.sample] else Min(t.left, SEGMENT)
  }

  ghost predicate AllDrawn(turns: seq<Turn>, lens: seq<nat>, all: nat)
    requires Samples(lens)
  {
    forall i :: 0 <= i < |turns| ==> Drawn(turns[i], Before(turns, i, all), Since(turns, i), lens)
  }

  /** The samples have run out with something left. */
  ghost predicate Starved(turns: seq<Turn>, lens: seq<nat>, all: nat)
    requires Samples(lens)
  {
    var since, left := Since(turns, |turns|), Before(turns, |turns|, all);
    since <= |lens| && left > 0 && AllSkipped(left, lens, since, |lens|)
  }

  function Lengths(turns: seq<Turn>): (r: seq<nat>)
    ensures |r| == |turns| && forall i :: 0 <= i < |r| ==> r[i] == turns[i].length
  {
    seq(|turns|, i requires 0 <= i < |turns| => turns[i].length)
  }

  lemma NextTurn(turns: seq<Turn>, t: Turn, lens: seq<nat>, all: nat)
    requires Samples(lens)
    requires AllDrawn(turns, lens, all) && Drawn(t, Before(turns, |turns|, all), Since(turns, |turns|), lens)
    ensures AllDrawn(turns + [t], lens, all) && Lengths(turns + [t]) == Lengths(turns) + [t.length]
    ensures Since(turns + [t], |turns| + 1) == t.sample + 1
    ensures Before(turns + [t], |turns| + 1, all) == t.left - t.length
  {
    hide Drawn, Since, Before, Lengths;
    var longer := turns + [t];
    forall i | 0 <= i < |longer| ensures Drawn(longer[i], Before(longer, i, all), Since(longer, i), lens) {
      SameBefore(turns, t, i, all);
    }
    LastBefore(turns, t, all);
  }

  lemma SameBefore(turns: seq<Turn>, t: Turn, i: nat, all: nat)
    requires i <= |turns|
    ensures Since(turns + [t], i) == Since(turns, i) && Before(turns + [t], i, all) == Before(turns, i, all)
  {
  }

  lemma LastBefore(turns: seq<Turn>, t: Turn, all: nat)
    ensures Since(turns + [t], |turns| + 1) == t.sample + 1
    ensures Before(turns + [t], |turns| + 1, all) == t.left - t.length
    ensures Lengths(turns + [t]) == Lengths(turns) + [t.length]
  {
  }

  lemma OneMore(lens: seq<nat>, since: nat, i: nat)
    requires since <= i < |lens|
    ensures ZeroCount(lens[since..i + 1]) == ZeroCount(lens[since..i]) + (if lens[i] == 0 then 1 else 0)
  {
    assert lens[since..i + 1] == lens[since..i] + [lens[i]];
  }

  class Writer {
    const encoder: S.Encoder
    const mode: IatMode
    /** Bytes handed to the socket, and the lengths of the writes that did it. */
    var wire: seq<byte>
    ghost var writes: seq<nat>
    /** Everything framed so far. */
    ghost var packets: seq<Packet>

    ghost predicate Valid()
      reads this, encoder
    {
      && F.Sound(encoder.keys)
      && AllFit(packets) && |packets| < F.TWO64
      && encoder.State() == F.EncoderAt(|packets|)
      && wire <= Wire(encoder.keys, packets)
    }

    /** Everything framed is on the wire. */
    ghost predicate Flushed()
      requires Valid()
      reads this, encoder
    {
      wire == Wire(encoder.keys, packets)
    }

    constructor (keys: F.Keys, mode: IatMode)
      requires F.Sound(keys)
      ensures Valid() && Flushed() && packets == [] && fresh(encoder)
      ensures encoder.keys == keys && this.mode == mode
    {
      encoder := new S.Encoder(keys);
      this.mode := mode;
      wire, writes, packets := [], [], [];
    }

    /** `burst` is what has been framed and not written. */
    ghost predicate Pending(burst: seq<byte>)
      requires Valid()
      reads this, encoder
    {
      wire + burst == Wire(encoder.keys, packets)
    }

    /** One packet into `burst`; fails only when the nonce counter has wrapped. */
    method PutPacket(p: Packet, burst: S.Buf) returns (ok: bool)
      requires p.Fits() && Valid() && burst.Valid() && Pending(burst.Contents())
      modifies encoder, burst, this`packets
      ensures Valid() && burst.Valid() && Pending(burst.Contents())
      ensures ok <==> |old(packets)| + 1 < F.TWO64
      ensures !ok ==> |packets| + 1 == F.TWO64
      ensures packets == if ok then old(packets) + [p] else old(packets)
      ensures |burst.Contents()| == |old(burst.Contents())| + (if ok then FrameLength(p) else 0)
    {
      hide F.Mask, F.WireFrom;
      var n: nat := |packets|;
      ghost var k, rest := encoder.keys, burst.Contents();
      F.EncodeStep(k, n, MakePacket(p));
      var error := encoder.Encode(MakePacket(p), burst);
      ok := error.None?;
      if ok {
        FrameSize(k, packets, p);
        ghost var frame := F.FrameAt(k, n, MakePacket(p));
        assert wire + (rest + frame) == wire + rest + frame;
        packets := packets + [p];
      }
    }

    /** Pads `burst` so that `pending` bytes and the padding end on `target`. */
    method PadBurst(burst: S.Buf, pending: nat, target: nat) returns (ok: bool)
      requires target <= SEGMENT && Valid() && burst.Valid() && Pending(burst.Contents())
      modifies encoder, burst, this`packets
      ensures Valid() && burst.Valid() && Pending(burst.Contents())
      ensures !ok ==> |packets| + 1 == F.TWO64
      ensures ok ==> packets == old(packets) + Padding(Gap(pending, target))
      ensures ok ==> |burst.Contents()| == |old(burst.Contents())| + PaddingLength(Gap(pending, target))
    {
      hide Valid, Pending;
      var gap := Gap(pending, target);
      if gap > HEADER_LENGTH {
        ok := PutPacket(Packet(TYPE_PAYLOAD, [], gap - HEADER_LENGTH), burst);
      } else if gap > 0 {
        ok := PutPacket(Packet(TYPE_PAYLOAD, [], MAX_PACKET_PAYLOAD_LENGTH), burst);
        if ok {
          ok := PutPacket(Packet(TYPE_PAYLOAD, [], gap), burst);
        }
      } else {
        ok := true;
      }
    }

    method FrameChunks(b: seq<byte>, burst: S.Buf) returns (ok: bool)
      requires Valid() && burst.Valid() && Pending(burst.Contents())
      modifies encoder, burst, this`packets
      ensures Valid() && burst.Valid() && Pending(burst.Contents())
      ensures !ok ==> |packets| + 1 == F.TWO64
      ensures ok ==> packets == old(packets) + Cut(b)
      ensures ok ==> |burst.Contents()| == |old(burst.Contents())| + CutLength(b)
    {
      hide Valid, Pending;
      var rest := b;
      ghost var before := packets;
      ok := true;
      assert before + Cut(b) == packets + Cut(rest);
      while rest != []
        invariant Valid() && burst.Valid() && Pending(burst.Contents())
        invariant packets + Cut(rest) == before + Cut(b)
        invariant |burst.Contents()| + CutLength(rest) == |old(burst.Contents())| + CutLength(b)
        decreases |rest|
      {
        var p := Packet(TYPE_PAYLOAD, rest[..Chunk(rest)], 0);
        ok := PutPacket(p, burst);
        if !ok {
          return;
        }
        assert Cut(rest) == [p] + Cut(rest[Chunk(rest)..]);
        rest := rest[Chunk(rest)..];
      }
    }

    /** `write_all` of the first `n` bytes of the burst. */
    method Send(burst: S.Buf, n: nat)
      requires Valid() && burst.Valid() && Pending(burst.Contents()) && n <= |burst.Contents()|
      modifies burst, this`wire, this`writes
      ensures Valid() && burst.Valid() && Pending(burst.Contents())
      ensures burst.Contents() == old(burst.Contents())[n..]
      ensures writes == old(writes) + [n] && |wire| == |old(wire)| + n
    {
      ghost var all := burst.Contents();
      assert all == all[..n] + all[n..];
      assert wire + all[..n] + all[n..] == wire + all;
      wire := wire + burst.Contents()[..n];
      writes := writes + [n];
      burst.Consume(n);
    }

    /** One turn of the paranoid loop with the sample `target`: passes over a zero, writes, or
        pads past the target and takes another sample. `zeros'` counts the zeros passed over
        since the last write. */
    method ParanoidTurn(burst: S.Buf, target: nat, zeros: nat)
      returns (ok: bool, zeros': nat, length: nat, ghost left: nat)
      requires Valid() && burst.Valid() && Pending(burst.Contents()) && burst.Contents() != []
      requires target <= SEGMENT && zeros <= MAX_ZERO_LENGTH_SAMPLES
      modifies encoder, burst, this
      ensures Valid() && burst.Valid() && Pending(burst.Contents())
      ensures ok ==> Text(packets) == Text(old(packets))
      ensures !ok ==> writes == old(writes) && target > 0 && |packets| + 1 == F.TWO64
      ensures ok ==> left == Padded(|old(burst.Contents())|, target) && |burst.Contents()| == left - length
      ensures ok ==> length == (if target > 0
                                then if |old(burst.Contents())| >= target || left == target then target else 0
                                else if zeros < MAX_ZERO_LENGTH_SAMPLES then 0 else Min(left, SEGMENT))
      ensures ok ==> zeros' == (if length > 0 then 0 else if target == 0 then zeros + 1 else zeros)
      ensures ok ==> writes == old(writes) + if length > 0 then [length] else []
    {
      hide Valid, Pending, Text, Gap, PaddingLength, Padding;
      ok, zeros', length, left := true, zeros, 0, |burst.Contents()|;
      if target == 0 && zeros < MAX_ZERO_LENGTH_SAMPLES {
        zeros' := zeros + 1;
        return;
      }
      if target == 0 {
        length := Min(|burst.Contents()|, SEGMENT);
      } else if |burst.Contents()| < target {
        ghost var before := packets;
        var pending := |burst.Contents()|;
        ok := PadBurst(burst, pending, target);
        if !ok {
          return;
        }
        GapBound(pending, target);
        PaddingText(before, Gap(pending, target));
        left := |burst.Contents()|;
        if |burst.Contents()| != target {
          return;
        }
        length := target;
      } else {
        length := target;
      }
      zeros' := 0;
      Send(burst, length);
    }

    /** The writes made since `before`, and the bytes they took to the wire since `sent`. */
    ghost predicate Written(before: seq<nat>, sent: nat, turns: seq<Turn>)
      reads this
    {
      && before <= writes
      && match mode
         case Plain => writes == before || writes == before + [|wire| - sent]
         case Standard => forall i :: |before| <= i < |writes| ==>
                            writes[i] <= SEGMENT && (i < |writes| - 1 ==> writes[i] == SEGMENT)
         case Paranoid => writes == before + Lengths(turns)
    }

    /** One `write_impl` with the length samples it will draw. A finished write has put whole
        frames on the wire that carry exactly `b`; a padded burst is as long, modulo a
        segment, as the sample asked, or 21 bytes longer; each paranoid write has the length
        drawn for it or is the bounded fallback. */
    method Write(b: seq<byte>, lens: seq<nat>) returns (r: Progress, ghost turns: seq<Turn>)
      requires Valid() && Flushed()
      requires Samples(lens) && (mode != Paranoid ==> lens != [])
      modifies this, encoder
      ensures Valid() && Written(old(writes), |old(wire)|, turns)
      ensures r == Done ==> Flushed()
      ensures r == Wrapped ==> |packets| + 1 == F.TWO64
      ensures r != Wrapped ==> Text(packets) == Text(old(packets)) + b
      ensures mode != Paranoid ==> r != Waiting
      ensures mode != Paranoid && r == Done ==>
                var gap := Gap(CutLength(b), lens[0]);
                && |wire| == |old(wire)| + CutLength(b) + PaddingLength(gap)
                && (|wire| - |old(wire)|) % SEGMENT
                     == (if 0 < gap <= HEADER_LENGTH then lens[0] + HEADER_LENGTH else lens[0]) % SEGMENT
      ensures mode == Paranoid ==> AllDrawn(turns, lens, CutLength(b))
      ensures mode == Paranoid && r == Done ==> Before(turns, |turns|, CutLength(b)) == 0
      ensures r == Waiting ==> Starved(turns, lens, CutLength(b))
    {
      hide Valid, Pending, Text, Flushed, AllDrawn, Starved, Lengths, Gap, PaddingLength, CutLength;
      turns := [];
      NoTurns(lens, CutLength(b));
      var burst := new S.Buf();
      NothingPending();
      var ok := FrameAll(b, lens, burst);
      if !ok {
        return Wrapped, [];
      }
      match mode
      case Plain =>
        PaddedLength(CutLength(b), lens[0]);
        Send(burst, |burst.Contents()|);
        SentAll(burst);
        return Done, [];
      case Standard =>
        PaddedLength(CutLength(b), lens[0]);
        SendSegments(burst);
        return Done, [];
      case Paranoid =>
        r, turns := SendParanoid(burst, lens);
    }

    static lemma NoTurns(lens: seq<nat>, all: nat)
      requires Samples(lens)
      ensures AllDrawn([], lens, all) && Lengths([]) == []
    {
    }

    /** Frames `b`, and pads the burst unless the mode pads as it goes. */
    method FrameAll(b: seq<byte>, lens: seq<nat>, burst: S.Buf) returns (ok: bool)
      requires Valid() && burst.Valid() && Pending(burst.Contents()) && burst.Contents() == []
      requires mode != Paranoid ==> lens != [] && lens[0] <= SEGMENT
      modifies encoder, burst, this`packets
      ensures Valid() && burst.Valid() && Pending(burst.Contents())
      ensures !ok ==> |packets| + 1 == F.TWO64
      ensures ok ==> Text(packets) == Text(old(packets)) + b
      ensures ok && mode == Paranoid ==> |burst.Contents()| == CutLength(b)
      ensures ok && mode != Paranoid ==>
                |burst.Contents()| == CutLength(b) + PaddingLength(Gap(CutLength(b), lens[0]))
      ensures writes == old(writes) && wire == old(wire)
    {
      hide Valid, Pending, Text, Gap, Padding, PaddingLength;
      ghost var before := packets;
      ok := FrameChunks(b, burst);
      CutText(before, b);
      if ok && mode != Paranoid {
        ghost var framed := packets;
        GapBound(|burst.Contents()|, lens[0]);
        PaddingText(framed, Gap(|burst.Contents()|, lens[0]));
        ok := PadBurst(burst, |burst.Contents()|, lens[0]);
      }
    }

    lemma NothingPending()
      requires Valid() && Flushed()
      ensures Pending([])
    {
      assert wire + [] == wire;
    }

    lemma SentAll(burst: S.Buf)
      requires Valid() && burst.Valid() && Pending(burst.Contents()) && burst.Contents() == []
      ensures Flushed()
    {
      assert wire + [] == wire;
    }

    method SendSegments(burst: S.Buf)
      requires Valid() && burst.Valid() && Pending(burst.Contents())
      modifies burst, this`wire, this`writes
      ensures Valid() && Flushed() && |wire| == |old(wire)| + |old(burst.Contents())|
      ensures old(writes) <= writes
      ensures forall i :: |old(writes)| <= i < |writes| ==>
                writes[i] <= SEGMENT && (i < |writes| - 1 ==> writes[i] == SEGMENT)
    {
      while burst.Contents() != []
        invariant Valid() && burst.Valid() && Pending(burst.Contents())
        invariant old(writes) <= writes
        invariant forall i :: |old(writes)| <= i < |writes| ==>
                    writes[i] <= SEGMENT
                    && (i < |writes| - 1 || burst.Contents() != [] ==> writes[i] == SEGMENT)
        decreases |burst.Contents()|
      {
        Send(burst, Min(|burst.Contents()|, SEGMENT));
      }
      SentAll(burst);
    }

    /** The paranoid loop; `turns` tells which sample each write used. */
    method SendParanoid(burst: S.Buf, lens: seq<nat>) returns (r: Progress, ghost turns: seq<Turn>)
      requires Valid() && burst.Valid() && Pending(burst.Contents()) && Samples(lens)
      modifies encoder, burst, this
      ensures Valid() && (r == Done ==> Flushed())
      ensures r == Wrapped ==> |packets| + 1 == F.TWO64
      ensures r != Wrapped ==> Text(packets) == Text(old(packets))
      ensures AllDrawn(turns, lens, |old(burst.Contents())|) && writes == old(writes) + Lengths(turns)
      ensures r == Done ==> Before(turns, |turns|, |old(burst.Contents())|) == 0
      ensures r == Waiting ==> Starved(turns, lens, |old(burst.Contents())|)
    {
      hide Valid, Pending, Text, AllDrawn, Drawn, Lengths, ZeroCount, Padded, LeftAt, Skipped, AllSkipped, Before, Since;
      var i: nat, zeros: nat := 0, 0;
      turns := [];
      ghost var all := |burst.Contents()|;
      ghost var since, left := 0, all;
      NoTurns(lens, all);
      NothingSkipped(left, lens, since);
      NoneBefore(all);
      while burst.Contents() != []
        invariant since == Since(turns, |turns|) <= i <= |lens| && 0 <= left == Before(turns, |turns|, all)
        invariant Valid() && burst.Valid() && Pending(burst.Contents())
        invariant Text(packets) == Text(old(packets))
        invariant zeros == ZeroCount(lens[since..i]) <= MAX_ZERO_LENGTH_SAMPLES
        invariant AllDrawn(turns, lens, all) && writes == old(writes) + Lengths(turns)
        invariant |burst.Contents()| == LeftAt(left, lens, since, i) && AllSkipped(left, lens, since, i)
        invariant if burst.Contents() == [] then left == 0 else left > 0
        decreases |lens| - i
      {
        if i == |lens| {
          return Waiting, turns;
        }
        OneMore(lens, since, i);
        SampleIs(left, lens, since, i);
        var ok, length; ghost var padded;
        ok, zeros, length, padded := ParanoidTurn(burst, lens[i], zeros);
        i := i + 1;
        if !ok {
          return Wrapped, turns;
        }
        if length > 0 {
          ghost var t := Turn(i - 1, padded, length);
          TurnIs(t, left, since, lens);
          NextTurn(turns, t, lens, all);
          turns := turns + [t];
          since, left := i, padded - length;
          NothingSkipped(left, lens, since);
        } else {
          OneSkipped(left, lens, since, i - 1);
        }
      }
      SentAll(burst);
      return Done, turns;
    }

    static lemma NoneBefore(all: nat)
      ensures Since([], 0) == 0 && Before([], 0, all) == all
    {
    }

    static lemma NothingSkipped(left: nat, lens: seq<nat>, since: nat)
      requires since <= |lens| && Samples(lens)
      ensures LeftAt(left, lens, since, since) == left && AllSkipped(left, lens, since, since)
      ensures ZeroCount(lens[since..since]) == 0
    {
      assert lens[since..since] == [];
    }

    /** What decides about a sample. */
    static lemma SampleIs(left: nat, lens: seq<nat>, since: nat, i: nat)
      requires since <= i < |lens| && Samples(lens)
      ensures var now := LeftAt(left, lens, since, i);
              && LeftAt(left, lens, since, i + 1) == Padded(now, lens[i])
              && (Skipped(left, lens, since, i) <==>
                    if lens[i] == 0 then ZeroCount(lens[since..i]) < MAX_ZERO_LENGTH_SAMPLES
                    else now < lens[i] != Padded(now, lens[i]))
    {
    }

    static lemma OneSkipped(left: nat, lens: seq<nat>, since: nat, i: nat)
      requires since <= i < |lens| && Samples(lens)
      requires AllSkipped(left, lens, since, i) && Skipped(left, lens, since, i)
      ensures AllSkipped(left, lens, since, i + 1)
    {
    }

    static lemma TurnIs(t: Turn, left: nat, since: nat, lens: seq<nat>)
      requires since <= t.sample < |lens| && Samples(lens) && 0 < t.length <= t.left
      requires AllSkipped(left, lens, since, t.sample) && !Skipped(left, lens, since, t.sample)
      requires t.left == LeftAt(left, lens, since, t.sample + 1)
      requires t.length == if lens[t.sample] > 0 then lens[t.sample] else Min(t.left, SEGMENT)
      ensures Drawn(t, left, since, lens)
    {
    }
  }
}
