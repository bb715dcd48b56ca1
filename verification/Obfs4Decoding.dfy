/** The incremental decoder against the encoder: every payload comes out, in order, however
    the bytes arrive. */
module Obfs4Decoding {
  import opened Words
  import opened Wrappers
  import opened Obfs4Framing

  predicate Decoy(decoy: u16) {
    MIN_FRAME_LENGTH <= decoy <= MAX_FRAME_LENGTH
  }

  /** What repeated `decode` yields from `buf` until it asks for more or fails. */
  datatype Drained = Drained(d: Decoder, rest: seq<byte>, payloads: seq<seq<byte>>, error: Option<Error>)

  /** `process_buffered`'s loop: stop on an empty buffer, on `Again`, or on an error. */
  function Drain(k: Keys, d: Decoder, buf: seq<byte>, decoy: u16): Drained
    decreases |buf|
  {
    if buf == [] then Drained(d, buf, [], None)
    else
      var r := Decode(k, d, buf, decoy);
      match r.outcome
      case Again => Drained(r.d, r.rest, [], None)
      case Fatal(e) => Drained(r.d, r.rest, [], Some(e))
      case Payload(p) =>
        if |r.rest| < |buf| then
          var t := Drain(k, r.d, r.rest, decoy);
          t.(payloads := [p] + t.payloads)
        else Drained(r.d, r.rest, [p], None)
  }

  /** Bytes arriving in chunks, each followed by a drain of what is buffered. */
  function Feed(k: Keys, d: Decoder, buf: seq<byte>, chunks: seq<seq<byte>>, decoy: u16): Drained
    decreases |chunks|
  {
    if chunks == [] then Drained(d, buf, [], None)
    else
      var r := Drain(k, d, buf + chunks[0], decoy);
      if r.error.Some? then r
      else
        var t := Feed(k, r.d, r.rest, chunks[1..], decoy);
        t.(payloads := r.payloads + t.payloads)
  }

  // ---- The decoder between frames, and between a length and its frame ----

  /** The decoder has taken `i` whole frames. */
  function Idle(i: nat, nonce: u64): Decoder
    requires i < TWO64
  {
    Decoder((i + 1) % TWO64, i, nonce, 0, false)
  }

  /** ... and the length of the next, which carries `n` sealed bytes. */
  function Waiting(i: nat, n: u16): Decoder
    requires i < TWO64 - 1
  {
    Decoder(i + 1, i + 1, i + 1, n, false)
  }

  /** What is still to be decoded: the bytes of `ps` from frame `i` on, in full or without
      the two length bytes already taken. */
  ghost predicate InStep(k: Keys, i: nat, ps: seq<seq<byte>>, d: Decoder, ahead: seq<byte>)
    requires i + |ps| < TWO64
  {
    || (d == Idle(i, d.nextNonce) && ahead == WireFrom(k, i, ps))
    || (ps != [] && d == Waiting(i, (|ps[0]| + SECRETBOX_OVERHEAD) % 0x1_0000)
        && ahead == k.seal(i + 1, ps[0]) + WireFrom(k, i + 1, ps[1..]))
  }

  ghost predicate Fitting(ps: seq<seq<byte>>) {
    forall j :: 0 <= j < |ps| ==> |ps[j]| <= MAXIMUM_FRAME_PAYLOAD_LENGTH
  }

  /** Taking the length field off the front of a frame. */
  lemma LengthStep(k: Keys, i: nat, nonce: u64, p: seq<byte>, tail: seq<byte>, buf: seq<byte>, decoy: u16)
    requires Sound(k) && i < TWO64 - 1 && |p| <= MAXIMUM_FRAME_PAYLOAD_LENGTH && |buf| >= 2
    requires buf <= FrameAt(k, i, p) + tail
    ensures var n := |p| + SECRETBOX_OVERHEAD;
            && ReadLength(k, Idle(i, nonce), FromBe16(buf[..2]), decoy) == Waiting(i, n)
            && buf[2..] <= k.seal(i + 1, p) + tail
            && Decode(k, Idle(i, nonce), buf, decoy) == ReadFrame(k, Waiting(i, n), buf[2..])
  {
    var sealed := k.seal(i + 1, p);
    var length := Mask(|sealed|, k.mask(i));
    assert buf[..2] == Be16(length);
    MaskTwice(|sealed|, k.mask(i));
    assert (FrameAt(k, i, p) + tail)[2..] == sealed + tail;
    assert forall j :: 0 <= j < |buf| - 2 ==> buf[2..][j] == (FrameAt(k, i, p) + tail)[2..][j];
  }

  /** Opening a frame once all of it is there. */
  lemma FrameStep(k: Keys, i: nat, p: seq<byte>, tail: seq<byte>, buf: seq<byte>)
    requires Sound(k) && i < TWO64 - 1 && |p| <= MAXIMUM_FRAME_PAYLOAD_LENGTH
    requires buf <= k.seal(i + 1, p) + tail
    ensures var n := |p| + SECRETBOX_OVERHEAD; var r := ReadFrame(k, Waiting(i, n), buf);
            if |buf| < n then r == Decoded(Waiting(i, n), buf, Again)
            else r == Decoded(Idle(i + 1, i + 1), buf[n..], Payload(p)) && buf[n..] <= tail
  {
    var n, sealed := |p| + SECRETBOX_OVERHEAD, k.seal(i + 1, p);
    if |buf| >= n {
      assert buf[..n] == sealed;
      assert forall j :: n <= j < |buf| ==> buf[j] == (sealed + tail)[j];
    }
  }

  /** Too few bytes for the next thing the decoder waits for: a length, or a frame. */
  predicate Short(d: Decoder, rest: seq<byte>) {
    |rest| < if d.nextLength == 0 then LENGTH_LENGTH else d.nextLength
  }

  /** The outcome of one `decode` in step with the encoder: the next payload if all its
      bytes have come, otherwise a request for more, still in step. */
  ghost predicate Stepped(k: Keys, i: nat, ps: seq<seq<byte>>, ahead: seq<byte>, buf: seq<byte>, r: Decoded,
                          ahead': seq<byte>)
    requires i + |ps| < TWO64 && buf <= ahead
  {
    && r.rest <= ahead' && ahead'[|r.rest|..] == ahead[|buf|..]
    && if r.outcome.Again? then InStep(k, i, ps, r.d, ahead') && Short(r.d, r.rest)
       else && ps != [] && r.outcome == Payload(ps[0]) && |r.rest| < |buf|
            && r.d == Idle(i + 1, r.d.nextNonce) && ahead' == WireFrom(k, i + 1, ps[1..])
  }

  lemma DropPrefix(a: seq<byte>, b: seq<byte>, buf: seq<byte>)
    requires buf <= a + b && |buf| >= |a|
    ensures buf[|a|..] <= b && b[|buf| - |a|..] == (a + b)[|buf|..]
  {
    assert forall j :: |a| <= j < |buf| ==> buf[j] == (a + b)[j];
  }

  lemma WaitingStep(k: Keys, i: nat, ps: seq<seq<byte>>, buf: seq<byte>) returns (ahead': seq<byte>)
    requires Sound(k) && i + |ps| < TWO64 && Fitting(ps) && ps != []
    requires buf <= k.seal(i + 1, ps[0]) + WireFrom(k, i + 1, ps[1..])
    ensures Stepped(k, i, ps, k.seal(i + 1, ps[0]) + WireFrom(k, i + 1, ps[1..]), buf,
                    ReadFrame(k, Waiting(i, |ps[0]| + SECRETBOX_OVERHEAD), buf), ahead')
  {
    var sealed, tail := k.seal(i + 1, ps[0]), WireFrom(k, i + 1, ps[1..]);
    FrameStep(k, i, ps[0], tail, buf);
    ahead' := sealed + tail;
    if |buf| >= |sealed| {
      DropPrefix(sealed, tail, buf);
      ahead' := tail;
    }
  }

  lemma WireBegins(k: Keys, i: nat, ps: seq<seq<byte>>)
    requires Sound(k) && i + |ps| < TWO64 && Fitting(ps) && ps != []
    ensures |ps[0]| <= MAXIMUM_FRAME_PAYLOAD_LENGTH
    ensures var sealed, tail := k.seal(i + 1, ps[0]), WireFrom(k, i + 1, ps[1..]);
            && WireFrom(k, i, ps) == FrameAt(k, i, ps[0]) + tail
            && WireFrom(k, i, ps) == Be16(Mask(|sealed| % 0x1_0000, k.mask(i))) + (sealed + tail)
  {
    hide Mask;
  }

  lemma ShortStep(k: Keys, i: nat, nonce: u64, ps: seq<seq<byte>>, buf: seq<byte>, decoy: u16)
    requires i + |ps| < TWO64 && buf <= WireFrom(k, i, ps) && |buf| < LENGTH_LENGTH
    ensures Stepped(k, i, ps, WireFrom(k, i, ps), buf, Decode(k, Idle(i, nonce), buf, decoy), WireFrom(k, i, ps))
  {
    hide WireFrom, ReadLength, ReadFrame;
  }

  lemma IdleStep(k: Keys, i: nat, nonce: u64, ps: seq<seq<byte>>, buf: seq<byte>, decoy: u16)
    returns (ahead': seq<byte>)
    requires Sound(k) && i + |ps| < TWO64 && Fitting(ps) && ps != []
    requires buf <= WireFrom(k, i, ps)
    ensures Stepped(k, i, ps, WireFrom(k, i, ps), buf, Decode(k, Idle(i, nonce), buf, decoy), ahead')
  {
    hide Mask, Sound, Fitting, WireFrom, FrameAt, Be16, Decode, ReadLength, ReadFrame;
    ahead' := WireFrom(k, i, ps);
    if |buf| < LENGTH_LENGTH {
      ShortStep(k, i, nonce, ps, buf, decoy);
    } else {
      var sealed, tail := k.seal(i + 1, ps[0]), WireFrom(k, i + 1, ps[1..]);
      WireBegins(k, i, ps);
      LengthStep(k, i, nonce, ps[0], tail, buf, decoy);
      DropPrefix(Be16(Mask(|sealed| % 0x1_0000, k.mask(i))), sealed + tail, buf);
      ahead' := WaitingStep(k, i, ps, buf[2..]);
    }
  }

  lemma DecodeStep(k: Keys, i: nat, ps: seq<seq<byte>>, d: Decoder, ahead: seq<byte>, buf: seq<byte>, decoy: u16)
    returns (ahead': seq<byte>)
    requires Sound(k) && i + |ps| < TWO64 && Fitting(ps) && InStep(k, i, ps, d, ahead) && buf <= ahead && ps != []
    ensures Stepped(k, i, ps, ahead, buf, Decode(k, d, buf, decoy), ahead')
  {
    hide Sound, ReadFrame, ReadLength, FrameAt, Stepped;
    if d.nextLength == 0 {
      ahead' := IdleStep(k, i, d.nextNonce, ps, buf, decoy);
    } else {
      ahead' := WaitingStep(k, i, ps, buf);
    }
  }

  /** Draining in step with the encoder yields the next payloads and stays in step, with too
      few bytes left for another. */
  lemma {:induction false} DrainStep(k: Keys, i: nat, ps: seq<seq<byte>>, d: Decoder, ahead: seq<byte>,
                                     buf: seq<byte>, decoy: u16)
    returns (j: nat, ahead': seq<byte>)
    requires Sound(k) && i + |ps| < TWO64 && Fitting(ps) && InStep(k, i, ps, d, ahead) && buf <= ahead
    ensures var r := Drain(k, d, buf, decoy);
            && r.error == None && j <= |ps| && r.payloads == ps[..j]
            && InStep(k, i + j, ps[j..], r.d, ahead') && Short(r.d, r.rest)
            && r.rest <= ahead' && ahead'[|r.rest|..] == ahead[|buf|..]
    decreases |buf|
  {
    hide Sound, Decode, WireFrom, InStep, Fitting;
    j, ahead' := 0, ahead;
    assert ps[0..] == ps;
    if buf != [] {
      NothingAhead(k, i, ps, d, ahead);
      ahead' := DecodeStep(k, i, ps, d, ahead, buf, decoy);
      var r := Decode(k, d, buf, decoy);
      if !r.outcome.Again? {
        IdleInStep(k, i + 1, ps[1..], r.d);
        RestFits(ps);
        var t;
        t, ahead' := DrainStep(k, i + 1, ps[1..], r.d, ahead', r.rest, decoy);
        j := t + 1;
        RestFrom(ps, t);
      }
    }
  }

  lemma NothingAhead(k: Keys, i: nat, ps: seq<seq<byte>>, d: Decoder, ahead: seq<byte>)
    requires i + |ps| < TWO64 && InStep(k, i, ps, d, ahead) && ahead != []
    ensures ps != []
  {
  }

  lemma IdleInStep(k: Keys, i: nat, ps: seq<seq<byte>>, d: Decoder)
    requires i + |ps| < TWO64 && d == Idle(i, d.nextNonce)
    ensures InStep(k, i, ps, d, WireFrom(k, i, ps))
  {
  }

  lemma RestFits(ps: seq<seq<byte>>)
    requires Fitting(ps) && ps != []
    ensures Fitting(ps[1..])
  {
  }

  lemma RestFrom(ps: seq<seq<byte>>, t: nat)
    requires t + 1 <= |ps|
    ensures [ps[0]] + ps[1..][..t] == ps[..t + 1] && ps[1..][t..] == ps[t + 1..]
  {
  }

  lemma {:induction false} WireSplit(k: Keys, from: nat, ps: seq<seq<byte>>, j: nat)
    requires from + |ps| < TWO64 && j <= |ps|
    ensures WireFrom(k, from, ps) == WireFrom(k, from, ps[..j]) + WireFrom(k, from + j, ps[j..])
    decreases |ps|
  {
    hide FrameAt;
    if j == 0 {
      assert ps[0..] == ps;
    } else {
      WireSplit(k, from + 1, ps[1..], j - 1);
      assert ps[..j][1..] == ps[1..][..j - 1] && ps[1..][j - 1..] == ps[j..];
    }
  }

  /** `j` is how many frames of `ps` are complete in the first `n` bytes of their frames. */
  ghost predicate Complete(k: Keys, ps: seq<seq<byte>>, n: nat, j: nat)
    requires |ps| < TWO64 - 1
  {
    && j <= |ps| && |WireFrom(k, 0, ps[..j])| <= n
    && (j < |ps| ==> n < |WireFrom(k, 0, ps[..j + 1])|)
  }

  /** Where a decoder is that has been fed the first `n` bytes of the frames of `ps`: it has
      taken the `j` frames that are complete in them, and of the next the length, if that has
      come; what is left in the buffer are exactly the bytes after that. */
  ghost predicate Landed(k: Keys, ps: seq<seq<byte>>, n: nat, j: nat, d: Decoder, rest: seq<byte>)
    requires |ps| < TWO64 - 1 && n <= |WireFrom(k, 0, ps)|
  {
    && Complete(k, ps, n, j)
    && var start := |WireFrom(k, 0, ps[..j])|;
       if n - start < LENGTH_LENGTH then d == Idle(j, d.nextNonce) && rest == WireFrom(k, 0, ps)[start..n]
       else j < |ps| && d == Waiting(j, (|ps[j]| + SECRETBOX_OVERHEAD) % 0x1_0000)
            && rest == WireFrom(k, 0, ps)[start + LENGTH_LENGTH..n]
  }

  lemma FrameLengthIs(k: Keys, ps: seq<seq<byte>>, j: nat)
    requires Sound(k) && Payloads(ps) && j < |ps|
    ensures var sealed := k.seal(j + 1, ps[j]);
            && |sealed| == |ps[j]| + SECRETBOX_OVERHEAD && |ps[j]| + SECRETBOX_OVERHEAD < 0x1_0000
            && |WireFrom(k, 0, ps[..j + 1])| == |WireFrom(k, 0, ps[..j])| + LENGTH_LENGTH + |sealed|
            && |WireFrom(k, j, ps[j..])| >= LENGTH_LENGTH
            && WireFrom(k, j, ps[j..])[LENGTH_LENGTH..] == sealed + WireFrom(k, j + 1, ps[j + 1..])
  {
    WireSplit(k, 0, ps[..j + 1], j);
    assert ps[..j + 1][..j] == ps[..j] && ps[..j + 1][j..] == [ps[j]];
    assert ps[j..][1..] == ps[j + 1..];
    var frame, sealed := FrameAt(k, j, ps[j]), k.seal(j + 1, ps[j]);
    assert frame[LENGTH_LENGTH..] == sealed;
    assert WireFrom(k, j, ps[j..]) == frame + WireFrom(k, j + 1, ps[j + 1..]);
  }

  /** Two tails of the same length end in the same place. */
  lemma SameEnd(all: seq<byte>, start: nat, n: nat, rest: seq<byte>)
    requires start <= |all| && n <= |all| && rest <= all[start..] && all[start..][|rest|..] == all[n..]
    ensures n == start + |rest| && rest == all[start..n]
  {
    assert |all| - start - |rest| == |all| - n;
  }

  lemma InStepLands(k: Keys, ps: seq<seq<byte>>, n: nat, j: nat, d: Decoder, rest: seq<byte>, ahead: seq<byte>)
    requires Sound(k) && Payloads(ps) && n <= |WireFrom(k, 0, ps)| && j <= |ps|
    requires InStep(k, j, ps[j..], d, ahead) && Short(d, rest)
    requires rest <= ahead && ahead[|rest|..] == WireFrom(k, 0, ps)[n..]
    ensures Landed(k, ps, n, j, d, rest)
  {
    hide Sound, WireFrom, FrameAt, Landed, InStep;
    var all := WireFrom(k, 0, ps);
    var start := |WireFrom(k, 0, ps[..j])|;
    WireSplit(k, 0, ps, j);
    assert all[start..] == WireFrom(k, j, ps[j..]);
    if d.nextLength == 0 {
      IdleAhead(k, j, ps[j..], d, ahead);
      SameEnd(all, start, n, rest);
      if j < |ps| {
        FrameLengthIs(k, ps, j);
      }
      IdleLands(k, ps, n, j, d, rest);
    } else {
      WaitingAhead(k, j, ps[j..], d, ahead);
      FrameLengthIs(k, ps, j);
      assert ps[j..][0] == ps[j] && ps[j..][1..] == ps[j + 1..];
      assert all[start..][LENGTH_LENGTH..] == all[start + LENGTH_LENGTH..];
      SameEnd(all, start + LENGTH_LENGTH, n, rest);
      WaitingLands(k, ps, n, j, d, rest);
    }
  }

  lemma IdleAhead(k: Keys, i: nat, ps: seq<seq<byte>>, d: Decoder, ahead: seq<byte>)
    requires i + |ps| < TWO64 && InStep(k, i, ps, d, ahead) && d.nextLength == 0 && Fitting(ps)
    ensures d == Idle(i, d.nextNonce) && ahead == WireFrom(k, i, ps)
  {
  }

  lemma WaitingAhead(k: Keys, i: nat, ps: seq<seq<byte>>, d: Decoder, ahead: seq<byte>)
    requires i + |ps| < TWO64 && InStep(k, i, ps, d, ahead) && d.nextLength != 0
    ensures ps != [] && d == Waiting(i, (|ps[0]| + SECRETBOX_OVERHEAD) % 0x1_0000)
    ensures ahead == k.seal(i + 1, ps[0]) + WireFrom(k, i + 1, ps[1..])
  {
  }

  lemma IdleLands(k: Keys, ps: seq<seq<byte>>, n: nat, j: nat, d: Decoder, rest: seq<byte>)
    requires |ps| < TWO64 - 1 && n <= |WireFrom(k, 0, ps)| && j <= |ps| && d == Idle(j, d.nextNonce)
    requires var start := |WireFrom(k, 0, ps[..j])|;
             && n == start + |rest| && |rest| < LENGTH_LENGTH && rest == WireFrom(k, 0, ps)[start..n]
             && (j < |ps| ==> n < |WireFrom(k, 0, ps[..j + 1])|)
    ensures Landed(k, ps, n, j, d, rest)
  {
    hide WireFrom;
  }

  lemma WaitingLands(k: Keys, ps: seq<seq<byte>>, n: nat, j: nat, d: Decoder, rest: seq<byte>)
    requires |ps| < TWO64 - 1 && n <= |WireFrom(k, 0, ps)| && j < |ps|
    requires d == Waiting(j, (|ps[j]| + SECRETBOX_OVERHEAD) % 0x1_0000)
    requires var start := |WireFrom(k, 0, ps[..j])|;
             && n == start + LENGTH_LENGTH + |rest| && rest == WireFrom(k, 0, ps)[start + LENGTH_LENGTH..n]
             && n < |WireFrom(k, 0, ps[..j + 1])|
    ensures Landed(k, ps, n, j, d, rest)
  {
    hide WireFrom;
  }

  /** From the first `n` bytes of a connection's frames the decoder yields exactly the `j`
      payloads whose frames are complete in them, and keeps exactly the rest. */
  lemma PayloadsDecoded(k: Keys, ps: seq<seq<byte>>, n: nat, decoy: u16) returns (j: nat)
    requires Sound(k) && Payloads(ps) && n <= |WireFrom(k, 0, ps)|
    ensures var r := Drain(k, NEW_DECODER, WireFrom(k, 0, ps)[..n], decoy);
            && r.error == None && Landed(k, ps, n, j, r.d, r.rest) && r.payloads == ps[..j]
            && (n == |WireFrom(k, 0, ps)| ==> r.payloads == ps && r.rest == [])
  {
    var all, ahead := WireFrom(k, 0, ps), [];
    hide WireFrom, Sound;
    j, ahead := DrainStep(k, 0, ps, NEW_DECODER, all, all[..n], decoy);
    var r := Drain(k, NEW_DECODER, all[..n], decoy);
    assert all[|all[..n]|..] == all[n..];
    InStepLands(k, ps, n, j, r.d, r.rest, ahead);
    if n == |all| {
      LandedAtEnd(k, ps, j, r.d, r.rest);
    }
  }

  lemma LandedAtEnd(k: Keys, ps: seq<seq<byte>>, j: nat, d: Decoder, rest: seq<byte>)
    requires Payloads(ps) && Landed(k, ps, |WireFrom(k, 0, ps)|, j, d, rest)
    ensures j == |ps| && rest == []
  {
    if j < |ps| {
      WireSplit(k, 0, ps, j + 1);
    } else {
      assert ps[..j] == ps;
    }
  }

  // ---- Chunking, for any bytes at all ----

  /** More bytes behind the buffer do not change what one `decode` does. */
  lemma DecodeMore(k: Keys, d: Decoder, a: seq<byte>, b: seq<byte>, decoy: u16)
    requires Decoy(decoy)
    ensures var r := Decode(k, d, a, decoy);
            if r.outcome.Again? then Decode(k, d, a + b, decoy) == Decode(k, r.d, r.rest + b, decoy)
            else Decode(k, d, a + b, decoy) == r.(rest := r.rest + b)
  {
    if d.nextLength != 0 {
      FrameMore(k, d, a, b);
    } else if |a| >= LENGTH_LENGTH {
      assert (a + b)[..2] == a[..2] && (a + b)[2..] == a[2..] + b;
      FrameMore(k, ReadLength(k, d, FromBe16(a[..2]), decoy), a[2..], b);
    }
  }

  lemma FrameMore(k: Keys, d: Decoder, a: seq<byte>, b: seq<byte>)
    ensures var r := ReadFrame(k, d, a);
            if r.outcome.Again? then r == Decoded(d, a, Again)
            else ReadFrame(k, d, a + b) == r.(rest := r.rest + b)
  {
    if |a| >= d.nextLength {
      assert (a + b)[..d.nextLength] == a[..d.nextLength];
      assert (a + b)[d.nextLength..] == a[d.nextLength..] + b;
    }
  }

  /** A frame that comes out takes bytes with it. */
  lemma PayloadShrinks(k: Keys, d: Decoder, buf: seq<byte>, decoy: u16)
    requires Decoy(decoy)
    ensures var r := Decode(k, d, buf, decoy); r.outcome.Payload? ==> |r.rest| < |buf|
    ensures |Decode(k, d, buf, decoy).rest| <= |buf|
    ensures buf == [] ==> Decode(k, d, buf, decoy) == Decoded(d, buf, Again)
  {
  }

  /** Same payloads and error; same decoder and unread bytes unless it has failed. */
  ghost predicate SameYield(r: Drained, t: Drained) {
    r.payloads == t.payloads && r.error == t.error && (r.error == None ==> r.d == t.d && r.rest == t.rest)
  }

  /** Draining, then more bytes, then draining again, is draining it all at once. */
  lemma {:induction false} DrainMore(k: Keys, d: Decoder, a: seq<byte>, b: seq<byte>, decoy: u16)
    requires Decoy(decoy)
    ensures var r := Drain(k, d, a, decoy); var all := Drain(k, d, a + b, decoy);
            if r.error.Some? then all.payloads == r.payloads && all.error == r.error
            else var t := Drain(k, r.d, r.rest + b, decoy); SameYield(t.(payloads := r.payloads + t.payloads), all)
    decreases |a|
  {
    hide Decode;
    if a == [] {
      assert a + b == b;
    } else {
      var r := Decode(k, d, a, decoy);
      DecodeMore(k, d, a, b, decoy);
      PayloadShrinks(k, d, a, decoy);
      if r.outcome.Payload? {
        DrainMore(k, r.d, r.rest, b, decoy);
        assert |r.rest + b| < |a + b|;
      } else if r.outcome.Again? {
        AgainDrains(k, d, a + b, r.d, r.rest + b, decoy);
      }
    }
  }

  lemma AgainDrains(k: Keys, d: Decoder, x: seq<byte>, d': Decoder, y: seq<byte>, decoy: u16)
    requires Decoy(decoy) && x != [] && |y| <= |x| && Decode(k, d, x, decoy) == Decode(k, d', y, decoy)
    ensures SameYield(Drain(k, d', y, decoy), Drain(k, d, x, decoy))
  {
    PayloadShrinks(k, d, x, decoy);
    PayloadShrinks(k, d', y, decoy);
    hide Decode;
  }

  /** Nothing more can be had from what is buffered. */
  ghost predicate Settled(k: Keys, d: Decoder, buf: seq<byte>, decoy: u16) {
    Drain(k, d, buf, decoy) == Drained(d, buf, [], None)
  }

  lemma {:induction false} DrainSettles(k: Keys, d: Decoder, buf: seq<byte>, decoy: u16)
    requires Decoy(decoy) && Drain(k, d, buf, decoy).error == None
    ensures var r := Drain(k, d, buf, decoy); Settled(k, r.d, r.rest, decoy)
    decreases |buf|
  {
    DrainMore(k, d, buf, [], decoy);
    assert buf + [] == buf;
    var r := Drain(k, d, buf, decoy);
    assert r.rest + [] == r.rest;
    hide Drain;
    var t := Drain(k, r.d, r.rest, decoy);
    assert |r.payloads + t.payloads| == |r.payloads|;
  }

  /** However the bytes are cut into arrivals, the payloads, the error and the decoder's
      state are those of one arrival. */
  lemma {:induction false} ChunkingInsensitive(k: Keys, d: Decoder, buf: seq<byte>, chunks: seq<seq<byte>>, decoy: u16)
    requires Decoy(decoy) && Settled(k, d, buf, decoy)
    ensures SameYield(Feed(k, d, buf, chunks, decoy), Drain(k, d, buf + Concat(chunks), decoy))
    decreases |chunks|
  {
    hide Drain;
    if chunks == [] {
      assert buf + [] == buf;
    } else {
      var rest := Concat(chunks[1..]);
      assert buf + Concat(chunks) == buf + chunks[0] + rest;
      DrainMore(k, d, buf + chunks[0], rest, decoy);
      var r := Drain(k, d, buf + chunks[0], decoy);
      if r.error == None {
        DrainSettles(k, d, buf + chunks[0], decoy);
        ChunkingInsensitive(k, r.d, r.rest, chunks[1..], decoy);
      }
    }
  }

  lemma NewSettled(k: Keys, decoy: u16)
    ensures Settled(k, NEW_DECODER, [], decoy)
  {
  }

  /** For every list of payloads and every way its frames arrive: exactly the payloads whose
      frames are complete in what has arrived, in order, with exactly the rest kept; all of
      them in the end. */
  lemma FramesDelivered(k: Keys, ps: seq<seq<byte>>, chunks: seq<seq<byte>>, decoy: u16) returns (j: nat)
    requires Sound(k) && Payloads(ps) && Decoy(decoy) && Concat(chunks) <= WireFrom(k, 0, ps)
    ensures var r := Feed(k, NEW_DECODER, [], chunks, decoy);
            && r.error == None && Landed(k, ps, |Concat(chunks)|, j, r.d, r.rest) && r.payloads == ps[..j]
            && (Concat(chunks) == WireFrom(k, 0, ps) ==> r.payloads == ps && r.rest == [])
  {
    hide Drain, Feed, WireFrom, Sound;
    NewSettled(k, decoy);
    ChunkingInsensitive(k, NEW_DECODER, [], chunks, decoy);
    assert [] + Concat(chunks) == Concat(chunks) == WireFrom(k, 0, ps)[..|Concat(chunks)|];
    j := PayloadsDecoded(k, ps, |Concat(chunks)|, decoy);
  }

  // ---- A length out of range ----

  /** Reading a length out of range marks the decoder for good. */
  lemma BadLengthPoisons(k: Keys, d: Decoder, buf: seq<byte>, decoy: u16)
    requires Decoy(decoy) && d.nextLength == 0 && d.counter != 0 && |buf| >= LENGTH_LENGTH
    requires var length := Mask(FromBe16(buf[..2]), k.mask(d.blocks));
             !(MIN_FRAME_LENGTH <= length <= MAX_FRAME_LENGTH)
    ensures Poisoned(Decode(k, d, buf, decoy).d) && !Decode(k, d, buf, decoy).outcome.Payload?
  {
  }

  predicate Poisoned(d: Decoder) {
    d.invalid && d.nextLength != 0
  }

  /** ... and no later call returns a frame, whatever arrives. */
  lemma {:induction false} PoisonedForever(k: Keys, d: Decoder, buf: seq<byte>, chunks: seq<seq<byte>>, decoy: u16)
    requires Poisoned(d)
    ensures Feed(k, d, buf, chunks, decoy).payloads == [] && Poisoned(Feed(k, d, buf, chunks, decoy).d)
    decreases |chunks|
  {
    if chunks != [] {
      var r := Drain(k, d, buf + chunks[0], decoy);
      assert r.payloads == [] && r.d == d;
      PoisonedForever(k, r.d, r.rest, chunks[1..], decoy);
    }
  }
}
