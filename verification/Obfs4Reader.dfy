/** The reading half of an obfs4 connection, and the connection end to end. */
module Obfs4Reader {
  import opened Words
  import opened Wrappers
  import F = Obfs4Framing
  import opened Obfs4Packet
  import opened Obfs4Decoding
  import opened Obfs4Conn
  import S = Obfs4Stream

  // ---- Following a stream of frames ----

  function Prepend(pre: seq<seq<byte>>, r: Drained): Drained {
    r.(payloads := pre + r.payloads)
  }

  function FromStart(k: F.Keys, fed: seq<byte>, decoy: u16): Drained {
    Drain(k, F.NEW_DECODER, fed, decoy)
  }

  /** Having decoded `pre` out of `fed` leaves decoder `d` and unread bytes `buf`, whatever comes next. */
  ghost predicate Tracks(k: F.Keys, fed: seq<byte>, pre: seq<seq<byte>>, d: F.Decoder, buf: seq<byte>, decoy: u16) {
    forall b :: SameYield(Prepend(pre, Drain(k, d, buf + b, decoy)), FromStart(k, fed + b, decoy))
  }

  lemma TracksStart(k: F.Keys, fed: seq<byte>, decoy: u16)
    ensures Tracks(k, fed, [], F.NEW_DECODER, fed, decoy)
  {
    hide Drain;
    forall b ensures SameYield(Prepend([], Drain(k, F.NEW_DECODER, fed + b, decoy)), FromStart(k, fed + b, decoy)) {
      var r := Drain(k, F.NEW_DECODER, fed + b, decoy);
      assert [] + r.payloads == r.payloads;
    }
  }

  lemma TracksExtend(k: F.Keys, fed: seq<byte>, pre: seq<seq<byte>>, d: F.Decoder, buf: seq<byte>, x: seq<byte>,
                     decoy: u16)
    requires Tracks(k, fed, pre, d, buf, decoy)
    ensures Tracks(k, fed + x, pre, d, buf + x, decoy)
  {
    hide Drain, FromStart, SameYield, Prepend;
    forall b ensures SameYield(Prepend(pre, Drain(k, d, buf + x + b, decoy)), FromStart(k, fed + x + b, decoy)) {
      assert buf + x + b == buf + (x + b) && fed + x + b == fed + (x + b);
    }
  }

  lemma SameYieldJoins(pre: seq<seq<byte>>, first: seq<seq<byte>>, t: Drained, more: Drained, whole: Drained)
    requires SameYield(t.(payloads := first + t.payloads), more) && SameYield(Prepend(pre, more), whole)
    ensures SameYield(Prepend(pre + first, t), whole)
  {
    assert pre + first + t.payloads == pre + (first + t.payloads);
  }

  lemma TracksDrain(k: F.Keys, fed: seq<byte>, pre: seq<seq<byte>>, d: F.Decoder, buf: seq<byte>, decoy: u16)
    requires Decoy(decoy) && Tracks(k, fed, pre, d, buf, decoy) && Drain(k, d, buf, decoy).error == None
    ensures var r := Drain(k, d, buf, decoy); Tracks(k, fed, pre + r.payloads, r.d, r.rest, decoy)
  {
    hide Drain, FromStart, SameYield, Prepend;
    var r := Drain(k, d, buf, decoy);
    forall b
      ensures SameYield(Prepend(pre + r.payloads, Drain(k, r.d, r.rest + b, decoy)), FromStart(k, fed + b, decoy))
    {
      DrainMore(k, d, buf, b, decoy);
      SameYieldJoins(pre, r.payloads, Drain(k, r.d, r.rest + b, decoy), Drain(k, d, buf + b, decoy),
                     FromStart(k, fed + b, decoy));
    }
  }

  /** The bytes so far decode without error into well-formed packets. */
  ghost predicate Good(k: F.Keys, fed: seq<byte>, decoy: u16) {
    FromStart(k, fed, decoy).error == None && Parses(FromStart(k, fed, decoy).payloads)
  }

  lemma GoodShrinks(k: F.Keys, fed: seq<byte>, x: seq<byte>, decoy: u16)
    requires Decoy(decoy) && Good(k, fed + x, decoy)
    ensures Good(k, fed, decoy)
  {
    DrainMore(k, F.NEW_DECODER, fed, x, decoy);
    hide Drain;
    var r, all := FromStart(k, fed, decoy), FromStart(k, fed + x, decoy);
    assert r.payloads <= all.payloads;
    assert forall i :: 0 <= i < |r.payloads| ==> r.payloads[i] == all.payloads[i];
  }

  lemma TracksGood(k: F.Keys, fed: seq<byte>, pre: seq<seq<byte>>, d: F.Decoder, buf: seq<byte>, decoy: u16)
    requires Tracks(k, fed, pre, d, buf, decoy) && Good(k, fed, decoy)
    ensures Drain(k, d, buf, decoy).error == None && Parses(Drain(k, d, buf, decoy).payloads)
    ensures FromStart(k, fed, decoy).payloads == pre + Drain(k, d, buf, decoy).payloads
  {
    hide Drain, FromStart;
    assert buf + [] == buf && fed + [] == fed;
    assert SameYield(Prepend(pre, Drain(k, d, buf + [], decoy)), FromStart(k, fed + [], decoy));
    var more := Drain(k, d, buf, decoy).payloads;
    assert forall i :: 0 <= i < |more| ==> (pre + more)[|pre| + i] == more[i];
  }

  // ---- Processing what is buffered ----

  /** `process_buffered`: state, unread bytes, stream bytes delivered, and whether it ended well. */
  datatype Processed = Processed(d: F.Decoder, rest: seq<byte>, text: seq<byte>, ok: bool)

  function Process(k: F.Keys, d: F.Decoder, buf: seq<byte>, decoy: u16): Processed
    decreases |buf|
  {
    if buf == [] then Processed(d, buf, [], true)
    else
      var r := F.Decode(k, d, buf, decoy);
      match r.outcome
      case Again => Processed(r.d, r.rest, [], true)
      case Fatal(_) => Processed(r.d, r.rest, [], false)
      case Payload(p) =>
        if !ParsePacket(p).Ok? then Processed(r.d, r.rest, [], false)
        else if |r.rest| < |buf| then
          var t := Process(k, r.d, r.rest, decoy);
          t.(text := Carried(p) + t.text)
        else Processed(r.d, r.rest, Carried(p), true)
  }

  /** On frames that decode into packets, processing delivers what they carry. */
  lemma {:induction false} ProcessIsDrain(k: F.Keys, d: F.Decoder, buf: seq<byte>, decoy: u16)
    ensures var r := Drain(k, d, buf, decoy); var p := Process(k, d, buf, decoy);
            if r.error == None && Parses(r.payloads)
            then p == Processed(r.d, r.rest, Received(r.payloads), true)
            else !p.ok
    decreases |buf|
  {
    hide F.Decode;
    if buf != [] {
      var r := F.Decode(k, d, buf, decoy);
      if r.outcome.Payload? {
        var p := r.outcome.data;
        if |r.rest| < |buf| {
          var t := Drain(k, r.d, r.rest, decoy);
          ProcessIsDrain(k, r.d, r.rest, decoy);
          ParsesCons(p, t.payloads);
          assert ([p] + t.payloads)[1..] == t.payloads;
        } else {
          ParsesCons(p, []);
          assert Received([p]) == Carried(p) + [];
        }
      }
    }
  }

  /** Processing, then more bytes, then processing again, is processing it all at once. */
  lemma {:induction false} ProcessMore(k: F.Keys, d: F.Decoder, a: seq<byte>, b: seq<byte>, decoy: u16)
    requires Decoy(decoy) && Process(k, d, a, decoy).ok
    ensures var p, all := Process(k, d, a, decoy), Process(k, d, a + b, decoy);
            var q := Process(k, p.d, p.rest + b, decoy);
            all.text == p.text + q.text && all.ok == q.ok
    decreases |a|
  {
    hide F.Decode, ParsePacket, Carried, Decoy;
    if a == [] {
      assert a + b == b;
    } else {
      var r := F.Decode(k, d, a, decoy);
      DecodeMore(k, d, a, b, decoy);
      PayloadShrinks(k, d, a, decoy);
      if r.outcome.Payload? {
        ProcessMore(k, r.d, r.rest, b, decoy);
        assert |r.rest + b| < |a + b|;
        Associated(Carried(r.outcome.data), Process(k, r.d, r.rest, decoy).text,
                   Process(k, Process(k, r.d, r.rest, decoy).d, Process(k, r.d, r.rest, decoy).rest + b, decoy).text);
      } else {
        AgainProcesses(k, d, a + b, r.d, r.rest + b, decoy);
      }
    }
  }

  lemma Associated(a: seq<byte>, b: seq<byte>, c: seq<byte>)
    ensures a + b + c == a + (b + c)
  {
  }

  lemma AgainProcesses(k: F.Keys, d: F.Decoder, x: seq<byte>, d': F.Decoder, y: seq<byte>, decoy: u16)
    requires Decoy(decoy) && x != [] && |y| <= |x| && F.Decode(k, d, x, decoy) == F.Decode(k, d', y, decoy)
    ensures Process(k, d, x, decoy).text == Process(k, d', y, decoy).text
    ensures Process(k, d, x, decoy).ok == Process(k, d', y, decoy).ok
  {
    hide F.Decode, ParsePacket, Carried, Decoy;
    PayloadShrinks(k, d, x, decoy);
    PayloadShrinks(k, d', y, decoy);
  }

  /** Whatever comes next, processing gives and refuses the same from either state. */
  ghost predicate Alike(k: F.Keys, d: F.Decoder, a: seq<byte>, d': F.Decoder, a': seq<byte>, decoy: u16) {
    forall x :: && Process(k, d, a + x, decoy).text == Process(k, d', a' + x, decoy).text
                && Process(k, d, a + x, decoy).ok == Process(k, d', a' + x, decoy).ok
  }

  lemma AlikeStart(k: F.Keys, d: F.Decoder, a: seq<byte>, decoy: u16)
    ensures Alike(k, d, a, d, a, decoy)
  {
  }

  lemma AlikeNow(k: F.Keys, d: F.Decoder, a: seq<byte>, d': F.Decoder, a': seq<byte>, decoy: u16)
    requires Alike(k, d, a, d', a', decoy)
    ensures Process(k, d, a, decoy).text == Process(k, d', a', decoy).text
    ensures Process(k, d, a, decoy).ok == Process(k, d', a', decoy).ok
  {
    hide Process;
    assert a + [] == a && a' + [] == a';
  }

  lemma AlikeMore(k: F.Keys, d: F.Decoder, a: seq<byte>, d': F.Decoder, a': seq<byte>, b: seq<byte>, decoy: u16)
    requires Alike(k, d, a, d', a', decoy)
    ensures Alike(k, d, a + b, d', a' + b, decoy)
  {
    hide Process;
    forall x ensures && Process(k, d, a + b + x, decoy).text == Process(k, d', a' + b + x, decoy).text
                     && Process(k, d, a + b + x, decoy).ok == Process(k, d', a' + b + x, decoy).ok
    {
      Associated(a, b, x);
      Associated(a', b, x);
    }
  }

  lemma AlikeQuiet(k: F.Keys, d: F.Decoder, a: seq<byte>, d': F.Decoder, a': seq<byte>, decoy: u16)
    requires Decoy(decoy) && Alike(k, d, a, d', a', decoy)
    requires Process(k, d', a', decoy).ok && Process(k, d', a', decoy).text == []
    ensures var p := Process(k, d', a', decoy); Alike(k, d, a, p.d, p.rest, decoy)
  {
    hide Process, Decoy;
    var p := Process(k, d', a', decoy);
    forall x ensures && Process(k, d, a + x, decoy).text == Process(k, p.d, p.rest + x, decoy).text
                     && Process(k, d, a + x, decoy).ok == Process(k, p.d, p.rest + x, decoy).ok
    {
      ProcessMore(k, d', a', x, decoy);
    }
  }

  lemma ParsesCons(p: seq<byte>, rest: seq<seq<byte>>)
    ensures Parses([p] + rest) <==> ParsePacket(p).Ok? && Parses(rest)
  {
    if Parses([p] + rest) {
      assert ([p] + rest)[0] == p;
      assert forall i :: 0 <= i < |rest| ==> ([p] + rest)[i + 1] == rest[i];
    }
  }

  /** What one arrival from the network may be. */
  datatype Arrival = Bytes(data: seq<byte>) | Eof | Failure

  datatype ReadResult = Read(n: nat) | Error | Blocked

  /** The bytes among what arrives. */
  function Incoming(arrivals: seq<Arrival>): seq<byte> {
    if arrivals == [] then []
    else
      var last := arrivals[|arrivals| - 1];
      Incoming(arrivals[..|arrivals| - 1]) + (if last.Bytes? then last.data else [])
  }

  lemma IncomingNone(arrivals: seq<Arrival>)
    ensures Incoming(arrivals[..0]) == []
  {
  }

  lemma IncomingNext(arrivals: seq<Arrival>, i: nat)
    requires i < |arrivals|
    ensures Incoming(arrivals[..i + 1]) == Incoming(arrivals[..i]) + (if arrivals[i].Bytes? then arrivals[i].data else [])
  {
    assert arrivals[..i + 1][..i] == arrivals[..i];
  }

  /** What processing makes of the bytes at hand and the first `m` arrivals together. */
  function Now(k: F.Keys, d: F.Decoder, buf: seq<byte>, arrivals: seq<Arrival>, m: nat, decoy: u16): Processed
    requires m <= |arrivals|
  {
    Process(k, d, buf + Incoming(arrivals[..m]), decoy)
  }

  /** The first `used` arrivals were asked for one by one, each because what came before gave
      nothing and was not refused, nor was the end or a failure. */
  ghost predicate Asked(k: F.Keys, d: F.Decoder, buf: seq<byte>, arrivals: seq<Arrival>, used: nat, decoy: u16) {
    && used <= |arrivals|
    && forall m :: 0 <= m < used ==>
         && (m > 0 ==> arrivals[m - 1].Bytes?)
         && Now(k, d, buf, arrivals, m, decoy).ok && Now(k, d, buf, arrivals, m, decoy).text == []
  }

  /** The answer of a read that finds nothing decoded, no error and no end. */
  ghost predicate Answers(k: F.Keys, d: F.Decoder, buf: seq<byte>, arrivals: seq<Arrival>, used: nat, decoy: u16,
                          capacity: nat, r: ReadResult) {
    && Asked(k, d, buf, arrivals, used, decoy)
    && if used > 0 && !arrivals[used - 1].Bytes? then r == if arrivals[used - 1].Eof? then Read(0) else Error
       else
         var p := Now(k, d, buf, arrivals, used, decoy);
         if p.text != [] then r == Read(Min(capacity, |p.text|))
         else if !p.ok then r == Error
         else r == Blocked && used == |arrivals|
  }

  /** What the two buffers, the decoder and the two flags hold. */
  datatype Half = Half(d: F.Decoder, buf: seq<byte>, decoded: seq<byte>, eof: bool, error: bool) {
    predicate Waiting() {
      decoded == [] && !error && !eof
    }
  }

  /** One turn with nothing to return: what is buffered is decoded, and only if that gives
      nothing and refuses nothing is the next arrival taken, and decoded as well. */
  ghost predicate Refilled(k: F.Keys, h: Half, arrivals: seq<Arrival>, used: nat, decoy: u16, h': Half, used': nat,
                           blocked: bool) {
    var p := Process(k, h.d, h.buf, decoy);
    if p.text != [] || !p.ok then
      !blocked && used' == used && h'.decoded == p.text && h'.error == !p.ok && !h'.eof
    else if used >= |arrivals| then blocked && used' == used && h'.Waiting()
    else
      && !blocked && used' == used + 1
      && match arrivals[used]
         case Bytes(data) =>
           var q := Process(k, p.d, p.rest + data, decoy);
           h' == Half(q.d, q.rest, q.text, false, !q.ok)
         case Eof => h'.decoded == [] && h'.eof && !h'.error
         case Failure => h'.decoded == [] && !h'.eof && h'.error
  }

  /** Where a read that began with nothing to return from `d` and `buf` stands after `used`
      arrivals: at the end or a failure, still with nothing to return, or with what
      processing all of that gives. */
  ghost predicate Turned(k: F.Keys, d: F.Decoder, buf: seq<byte>, arrivals: seq<Arrival>, used: nat, decoy: u16, h: Half) {
    && Asked(k, d, buf, arrivals, used, decoy)
    && if used > 0 && !arrivals[used - 1].Bytes? then h.decoded == [] && h.eof == arrivals[used - 1].Eof? && h.error == !h.eof
       else if h.Waiting() then Alike(k, d, buf + Incoming(arrivals[..used]), h.d, h.buf, decoy)
       else
         var p := Now(k, d, buf, arrivals, used, decoy);
         !h.eof && h.decoded == p.text && h.error == !p.ok
  }

  lemma TurnedStart(k: F.Keys, h: Half, arrivals: seq<Arrival>, decoy: u16)
    requires h.Waiting()
    ensures Turned(k, h.d, h.buf, arrivals, 0, decoy, h)
  {
    hide Process;
    IncomingNone(arrivals);
    assert h.buf + [] == h.buf;
    AlikeStart(k, h.d, h.buf, decoy);
  }

  /** What the loop is about to return is the answer. */
  lemma TurnedAnswers(k: F.Keys, d: F.Decoder, buf: seq<byte>, arrivals: seq<Arrival>, used: nat, decoy: u16, h: Half,
                      capacity: nat)
    requires Turned(k, d, buf, arrivals, used, decoy, h) && !h.Waiting()
    ensures Answers(k, d, buf, arrivals, used, decoy, capacity,
                    if h.decoded != [] then Read(Min(capacity, |h.decoded|)) else if h.error then Error else Read(0))
  {
  }

  lemma AskedOn(k: F.Keys, d: F.Decoder, buf: seq<byte>, arrivals: seq<Arrival>, used: nat, decoy: u16)
    requires Asked(k, d, buf, arrivals, used, decoy) && used < |arrivals| && (used > 0 ==> arrivals[used - 1].Bytes?)
    requires Now(k, d, buf, arrivals, used, decoy).ok && Now(k, d, buf, arrivals, used, decoy).text == []
    ensures Asked(k, d, buf, arrivals, used + 1, decoy)
  {
    hide Now;
    forall m: nat | m < used + 1
      ensures (m > 0 ==> arrivals[m - 1].Bytes?)
              && Now(k, d, buf, arrivals, m, decoy).ok && Now(k, d, buf, arrivals, m, decoy).text == []
    {
      assert m < used ==> Now(k, d, buf, arrivals, m, decoy).ok;
    }
  }

  lemma TurnedBytes(k: F.Keys, d: F.Decoder, buf: seq<byte>, arrivals: seq<Arrival>, used: nat, decoy: u16,
                    d': F.Decoder, rest: seq<byte>)
    requires used < |arrivals| && arrivals[used].Bytes? && Decoy(decoy)
    requires Alike(k, d, buf + Incoming(arrivals[..used]), d', rest, decoy) && Asked(k, d, buf, arrivals, used + 1, decoy)
    ensures var q := Process(k, d', rest + arrivals[used].data, decoy);
            Turned(k, d, buf, arrivals, used + 1, decoy, Half(q.d, q.rest, q.text, false, !q.ok))
  {
    hide Process, Decoy, Incoming, Alike, Asked;
    var all, data := buf + Incoming(arrivals[..used]), arrivals[used].data;
    IncomingNext(arrivals, used);
    Associated(buf, Incoming(arrivals[..used]), data);
    assert buf + Incoming(arrivals[..used + 1]) == all + data;
    AlikeMore(k, d, all, d', rest, data, decoy);
    AlikeNow(k, d, all + data, d', rest + data, decoy);
    var q := Process(k, d', rest + data, decoy);
    if q.text == [] && q.ok {
      AlikeQuiet(k, d, all + data, d', rest + data, decoy);
    }
  }

  /** One turn more. */
  lemma TurnedOn(k: F.Keys, d: F.Decoder, buf: seq<byte>, arrivals: seq<Arrival>, used: nat, decoy: u16, h: Half,
                 h': Half, used': nat, blocked: bool, capacity: nat)
    requires Decoy(decoy) && Turned(k, d, buf, arrivals, used, decoy, h) && h.Waiting()
    requires Refilled(k, h, arrivals, used, decoy, h', used', blocked)
    ensures if blocked then Answers(k, d, buf, arrivals, used', decoy, capacity, Blocked)
            else Turned(k, d, buf, arrivals, used', decoy, h')
  {
    hide Process, Decoy, Incoming, Alike;
    var all := buf + Incoming(arrivals[..used]);
    assert Alike(k, d, all, h.d, h.buf, decoy);
    AlikeNow(k, d, all, h.d, h.buf, decoy);
    var p := Process(k, h.d, h.buf, decoy);
    if p.text == [] && p.ok && used < |arrivals| {
      AskedOn(k, d, buf, arrivals, used, decoy);
      if arrivals[used].Bytes? {
        AlikeQuiet(k, d, all, h.d, h.buf, decoy);
        TurnedBytes(k, d, buf, arrivals, used, decoy, p.d, p.rest);
      }
    }
  }

  class Reader {
    const decoder: S.Decoder
    const receive: S.Buf
    const decoded: S.Buf
    const decoy: u16
    var eof: bool
    var error: bool
    /** Bytes taken from the network, bytes returned to the caller, frames decoded, and
        whether a frame or packet was ever refused. */
    ghost var fed: seq<byte>
    ghost var given: seq<byte>
    ghost var frames: seq<seq<byte>>
    ghost var failed: bool

    ghost predicate Owned()
      reads receive, decoded
    {
      receive != decoded && receive.Valid() && decoded.Valid() && Decoy(decoy)
    }

    ghost predicate Following()
      requires Owned()
      reads `fed, `frames, `given, decoder, receive, decoded
    {
      && Tracks(decoder.keys, fed, frames, decoder.State(), receive.Contents(), decoy)
      && Parses(frames) && given + decoded.Contents() == Received(frames)
    }

    ghost predicate Sound()
      reads this, decoder, receive, decoded
    {
      Owned() && if failed then !Good(decoder.keys, fed, decoy) else Following()
    }

    /** Nothing more can be decoded from what is buffered. */
    ghost predicate Dry()
      requires receive.Valid()
      reads decoder, receive
    {
      Drain(decoder.keys, decoder.State(), receive.Contents(), decoy).payloads == []
    }

    /** After the end of the network's bytes nothing decodable is left behind. */
    ghost predicate Valid()
      reads this, decoder, receive, decoded
    {
      Sound() && (eof && !failed ==> Dry())
    }

    /** `leftover`: bytes the handshake read past its end. */
    constructor (keys: F.Keys, leftover: seq<byte>, decoy: u16)
      requires Decoy(decoy)
      ensures Valid() && !failed && fed == leftover && given == [] && decoded.Contents() == []
      ensures decoder.keys == keys && this.decoy == decoy && fresh(decoder) && fresh(receive) && fresh(decoded)
    {
      decoder := new S.Decoder(keys);
      receive := new S.Buf();
      decoded := new S.Buf();
      this.decoy, eof, error := decoy, false, false;
      fed, given, frames, failed := leftover, [], [], false;
      new;
      receive.Extend(leftover);
      TracksStart(keys, leftover, decoy);
      assert [] + leftover == leftover;
    }

    /** One decoded frame: payload packets go to the reader, others only have to parse. */
    method Deliver(pkt: seq<byte>) returns (ok: bool)
      requires decoded.Valid()
      modifies decoded
      ensures decoded.Valid() && ok == ParsePacket(pkt).Ok?
      ensures decoded.Contents() == old(decoded.Contents()) + (if ok then Carried(pkt) else [])
    {
      var p := ParsePacket(pkt);
      if p.Ok? && p.kind == TYPE_PAYLOAD {
        decoded.Extend(p.payload);
      }
      return p.Ok?;
    }

    /** The loop that feeds the decoder until it wants more bytes or fails. */
    method DecodeBuffered() returns (ok: bool)
      requires Owned()
      modifies decoder, receive, decoded
      ensures Owned()
      ensures var p := Process(decoder.keys, old(decoder.State()), old(receive.Contents()), decoy);
              && decoder.State() == p.d && receive.Contents() == p.rest && ok == p.ok
              && decoded.Contents() == old(decoded.Contents()) + p.text
    {
      hide F.Decode, ParsePacket, Carried;
      ghost var k := decoder.keys;
      ghost var all := Process(k, decoder.State(), receive.Contents(), decoy);
      ghost var before, text := decoded.Contents(), [];
      while receive.Contents() != []
        invariant Owned() && decoded.Contents() == before + text
        invariant var p := Process(k, decoder.State(), receive.Contents(), decoy);
                  all == Processed(p.d, p.rest, text + p.text, p.ok)
        decreases |receive.Contents()|
      {
        PayloadShrinks(k, decoder.State(), receive.Contents(), decoy);
        var outcome := decoder.Decode(receive, decoy);
        if outcome.Again? {
          return true;
        } else if outcome.Fatal? {
          return false;
        }
        var fine := Deliver(outcome.data);
        if !fine {
          return false;
        }
        text := text + Carried(outcome.data);
      }
      return true;
    }

    /** `process_buffered`, with its error stashed for the next turn. */
    method ProcessBuffered()
      requires Sound()
      modifies this`error, this`frames, this`failed, decoder, receive, decoded
      ensures Sound() && (!failed ==> Dry())
      ensures var p := Process(decoder.keys, old(decoder.State()), old(receive.Contents()), decoy);
              && decoder.State() == p.d && receive.Contents() == p.rest
              && decoded.Contents() == old(decoded.Contents()) + p.text
              && error == (old(error) || !p.ok) && failed == (old(failed) || !p.ok)
    {
      hide Tracks, Good, Process, Drain, Parses, Received;
      ghost var k, d, buf := decoder.keys, decoder.State(), receive.Contents();
      ghost var more := Drain(k, d, buf, decoy).payloads;
      if !failed {
        Follows(k, fed, frames, d, buf, decoy, given, decoded.Contents());
      }
      var ok := DecodeBuffered();
      if !ok {
        error := true;
      }
      if !failed {
        if ok {
          frames := frames + more;
        } else {
          failed := true;
        }
      }
    }

    /** A reader that follows goes on following, until something is refused. */
    static lemma Follows(k: F.Keys, fed: seq<byte>, frames: seq<seq<byte>>, d: F.Decoder, buf: seq<byte>, decoy: u16,
                         given: seq<byte>, ready: seq<byte>)
      requires Decoy(decoy) && Tracks(k, fed, frames, d, buf, decoy)
      requires Parses(frames) && given + ready == Received(frames)
      ensures var p, all := Process(k, d, buf, decoy), frames + Drain(k, d, buf, decoy).payloads;
              if p.ok then
                && Tracks(k, fed, all, p.d, p.rest, decoy) && Parses(all)
                && given + (ready + p.text) == Received(all) && Drain(k, p.d, p.rest, decoy).payloads == []
              else !Good(k, fed, decoy)
    {
      hide Tracks, Good, Process, Drain, Parses, Received;
      ProcessIsDrain(k, d, buf, decoy);
      var p, r := Process(k, d, buf, decoy), Drain(k, d, buf, decoy);
      if p.ok {
        TracksDrain(k, fed, frames, d, buf, decoy);
        DrainSettles(k, d, buf, decoy);
        ReceivedAppend(frames, r.payloads);
        ParsesAppend(frames, r.payloads);
        assert given + (ready + p.text) == given + ready + p.text;
      } else if Good(k, fed, decoy) {
        TracksGood(k, fed, frames, d, buf, decoy);
      }
    }

    static lemma ParsesAppend(a: seq<seq<byte>>, b: seq<seq<byte>>)
      ensures Parses(a) && Parses(b) ==> Parses(a + b)
    {
    }

    method Arrive(data: seq<byte>)
      requires Sound()
      modifies this`fed, receive
      ensures Sound() && fed == old(fed) + data && receive.Contents() == old(receive.Contents()) + data
    {
      hide Tracks, Good;
      ghost var k := decoder.keys;
      if failed {
        if Good(k, fed + data, decoy) {
          GoodShrinks(k, fed, data, decoy);
        }
      } else {
        TracksExtend(k, fed, frames, decoder.State(), receive.Contents(), data, decoy);
      }
      receive.Extend(data);
      fed := fed + data;
    }

    /** `read_impl` against the arrivals the network has for it: decoded bytes first, then a
        stashed error, then end of stream, then decoding, then the network. Zero bytes into
        a buffer with room mean the network has ended and nothing is left. */
    method ReadSome(out: array<byte>, arrivals: seq<Arrival>) returns (r: ReadResult, used: nat)
      requires Valid()
      modifies this, decoder, receive, decoded, out
      ensures Valid() && used <= |arrivals| && fed == old(fed) + Incoming(arrivals[..used])
      ensures match r
              case Read(n) => n <= out.Length && given == old(given) + out[..n] && out[n..] == old(out[..])[n..]
              case _ => given == old(given) && out[..] == old(out[..])
      ensures out.Length == 0 ==> r == Read(0) && used == 0
      ensures out.Length > 0 && !old(State().Waiting()) ==>
                && used == 0
                && r == if old(decoded.Contents()) != [] then Read(Min(out.Length, |old(decoded.Contents())|))
                        else if old(error) then Error else Read(0)
      ensures out.Length > 0 && old(State().Waiting()) ==>
                Answers(decoder.keys, old(decoder.State()), old(receive.Contents()), arrivals, used, decoy, out.Length, r)
      ensures r == Read(0) && out.Length > 0 ==>
                eof && !error && decoded.Contents() == [] && (old(eof) || Eof in arrivals[..used])
      ensures r == Error ==> decoded.Contents() == [] && (failed || old(error) || Failure in arrivals[..used])
      ensures r == Blocked ==> used == |arrivals| && !eof && !error && decoded.Contents() == [] && (!failed ==> Dry())
    {
      hide Tracks, Good, Drain, Parses, Received, Process, Incoming, Decoy, Following, Dry, S.Decoder.State, Now, Asked,
           Answers, Alike, Turned, Refilled, S.Buf.Valid, S.Buf.Contents;
      used := 0;
      IncomingNone(arrivals);
      Nothing(given, out[..]);
      if out.Length == 0 {
        return Read(0), 0;
      }
      ghost var start, h := State(), State();
      ghost var k, d, buf, idle := decoder.keys, start.d, start.buf, start.Waiting();
      if idle {
        TurnedStart(k, start, arrivals, decoy);
      }
      while true
        invariant Valid() && used <= |arrivals| && fed == old(fed) + Incoming(arrivals[..used])
        invariant h == State() && if idle then Turned(k, d, buf, arrivals, used, decoy, h) else used == 0 && h == start
        invariant given == old(given) && out[..] == old(out[..])
        invariant eof ==> old(eof) || Eof in arrivals[..used]
        invariant error ==> failed || old(error) || Failure in arrivals[..used]
        decreases |arrivals| - used, if eof then 0 else 1, if decoded.Contents() != [] || error then 0 else 1
      {
        if idle && !h.Waiting() {
          TurnedAnswers(k, d, buf, arrivals, used, decoy, h, out.Length);
        }
        if decoded.Contents() != [] {
          var n := TakeDecoded(out);
          return Read(n), used;
        }
        if error {
          error := false;
          return Error, used;
        }
        if eof {
          return Read(0), used;
        }
        var blocked, next;
        if used < |arrivals| {
          IncomingNext(arrivals, used);
        }
        blocked, next := Refill(arrivals, used);
        TurnedOn(k, d, buf, arrivals, used, decoy, h, State(), next, blocked, out.Length);
        used, h := next, State();
        if blocked {
          return Blocked, used;
        }
      }
    }

    /** What the loop does with nothing to return: decode, and only then take an arrival. */
    method Refill(arrivals: seq<Arrival>, used: nat) returns (blocked: bool, used': nat)
      requires Valid() && used <= |arrivals| && State().Waiting()
      modifies this`fed, this`eof, this`error, this`frames, this`failed, decoder, receive, decoded
      ensures Valid() && used <= used' <= |arrivals| && used' <= used + 1
      ensures fed == old(fed) + if used' > used && arrivals[used].Bytes? then arrivals[used].data else []
      ensures Refilled(decoder.keys, old(State()), arrivals, used, decoy, State(), used', blocked)
      ensures eof ==> used' > used && arrivals[used] == Eof
      ensures error ==> failed || (used' > used && arrivals[used] == Failure)
      ensures blocked ==> used' == |arrivals| && State().Waiting() && (!failed ==> Dry())
      ensures !blocked && used' == used ==> error || decoded.Contents() != []
    {
      hide Tracks, Good, Drain, Parses, Received, Process;
      used' := used;
      assert fed + [] == fed;
      ghost var k, h := decoder.keys, State();
      ghost var p := Process(k, h.d, h.buf, decoy);
      ProcessBuffered();
      if error || decoded.Contents() != [] {
        return false, used;
      }
      if used == |arrivals| {
        return true, used;
      }
      used' := used + 1;
      ProcessMore(k, h.d, h.buf, [], decoy);
      assert h.buf + [] == h.buf && p.rest + [] == p.rest;
      match arrivals[used] {
        case Bytes(data) => Arrive(data);
        case Eof => eof := true;
        case Failure => error := true;
      }
      ProcessBuffered();
      return false, used';
    }

    ghost function State(): Half
      requires Owned()
      reads this, decoder, receive, decoded
    {
      Half(decoder.State(), receive.Contents(), decoded.Contents(), eof, error)
    }

    method TakeDecoded(out: array<byte>) returns (n: nat)
      requires Valid()
      modifies this`given, decoded, out
      ensures Valid() && n == Min(out.Length, |old(decoded.Contents())|)
      ensures given == old(given) + out[..n] && out[n..] == old(out[..])[n..]
      ensures decoded.Contents() == old(decoded.Contents())[n..]
    {
      hide Tracks, Parses, Received, Good, Decoy, S.Buf.Valid, S.Buf.Contents, S.Decoder.State;
      ghost var ready := decoded.Contents();
      n := decoded.ReadInto(out);
      Moved(given, ready, n);
      given := given + out[..n];
    }

    static lemma Nothing(given: seq<byte>, out: seq<byte>)
      ensures given + out[..0] == given && out[0..] == out
    {
    }

    static lemma Moved(given: seq<byte>, ready: seq<byte>, n: nat)
      requires n <= |ready|
      ensures given + ready[..n] + ready[n..] == given + ready
    {
      assert ready == ready[..n] + ready[n..];
    }
  }

  // ---- End to end ----

  /** `j` is how many of a writer's packets are complete in the first `n` bytes of its wire. */
  ghost predicate Whole(k: F.Keys, ps: seq<Packet>, n: nat, j: nat)
    requires AllFit(ps) && |ps| < F.TWO64 - 1
  {
    && j <= |ps| && |Wire(k, ps[..j])| <= n
    && (j < |ps| ==> n < |Wire(k, ps[..j + 1])|)
  }

  lemma BodiesPrefix(ps: seq<Packet>, j: nat)
    requires AllFit(ps) && j <= |ps|
    ensures AllFit(ps[..j]) && Bodies(ps)[..j] == Bodies(ps[..j])
  {
  }

  lemma WireDecodes(k: F.Keys, ps: seq<Packet>, fed: seq<byte>, decoy: u16) returns (j: nat)
    requires F.Sound(k) && AllFit(ps) && |ps| < F.TWO64 - 1 && fed <= Wire(k, ps)
    ensures j <= |ps| && Whole(k, ps, |fed|, j)
    ensures var r := FromStart(k, fed, decoy);
            r.error == None && r.payloads == Bodies(ps[..j]) && (fed == Wire(k, ps) ==> j == |ps|)
  {
    hide Drain, F.WireFrom, F.Sound, MakePacket;
    assert fed == Wire(k, ps)[..|fed|];
    j := PayloadsDecoded(k, Bodies(ps), |fed|, decoy);
    BodiesPrefix(ps, j);
    if j < |ps| {
      BodiesPrefix(ps, j + 1);
    }
  }

  /** Any prefix of what a writer put on the wire decodes without error into exactly the
      packets that are complete in it. */
  lemma WriterIsGood(k: F.Keys, ps: seq<Packet>, fed: seq<byte>, decoy: u16) returns (j: nat)
    requires F.Sound(k) && AllFit(ps) && |ps| < F.TWO64 - 1 && fed <= Wire(k, ps)
    ensures j <= |ps| && Good(k, fed, decoy) && Whole(k, ps, |fed|, j)
    ensures Received(FromStart(k, fed, decoy).payloads) == Text(ps[..j])
    ensures fed == Wire(k, ps) ==> j == |ps|
  {
    hide FromStart, Text, Received, Parses, Wire, Bodies, Whole;
    j := WireDecodes(k, ps, fed, decoy);
    BodiesPrefix(ps, j);
    BodiesDeliver(ps[..j]);
  }

  /** A connection: if all the reader was fed is what the writer wrote so far, it has not
      failed, and what the caller got, what waits decoded and what a further drain would
      give are together the text of exactly the packets that have arrived whole; once
      everything has been fed, of all of them. */
  lemma ConnectionDelivers(w: Writer, r: Reader) returns (j: nat)
    requires w.Valid() && r.Valid() && r.decoder.keys == w.encoder.keys && r.fed <= w.wire
    requires |w.packets| < F.TWO64 - 1
    ensures !r.failed && Whole(w.encoder.keys, w.packets, |r.fed|, j)
    ensures var more := Drain(r.decoder.keys, r.decoder.State(), r.receive.Contents(), r.decoy).payloads;
            r.given + r.decoded.Contents() + Received(more) == Text(w.packets[..j])
    ensures r.given <= Text(w.packets)
    ensures w.Flushed() && r.fed == w.wire ==> j == |w.packets|
  {
    var k := w.encoder.keys;
    j := WriterIsGood(k, w.packets, r.fed, r.decoy);
    TracksGood(k, r.fed, r.frames, r.decoder.State(), r.receive.Contents(), r.decoy);
    hide Drain, FromStart, Tracks, Good, Text, Received, Wire, Parses;
    var more := Drain(k, r.decoder.State(), r.receive.Contents(), r.decoy).payloads;
    ReceivedAppend(r.frames, more);
    TextPrefix(w.packets, j);
    assert r.given <= r.given + r.decoded.Contents() + Received(more);
  }

  /** What zero bytes into a buffer with room mean (`ReadSome` then leaves the reader at the
      end of the network's bytes with nothing decoded): the caller has the text of exactly
      the packets that have arrived whole, and all that was written if all of it was fed. */
  lemma EndDelivers(w: Writer, r: Reader) returns (j: nat)
    requires w.Valid() && r.Valid() && r.decoder.keys == w.encoder.keys && r.fed <= w.wire
    requires |w.packets| < F.TWO64 - 1
    requires r.eof && r.decoded.Contents() == []
    ensures Whole(w.encoder.keys, w.packets, |r.fed|, j) && r.given == Text(w.packets[..j])
    ensures w.Flushed() && r.fed == w.wire ==> r.given == Text(w.packets)
  {
    j := ConnectionDelivers(w, r);
    hide Whole, Text, Reader.Following, Drain, Writer.Valid, Writer.Flushed;
    var more := Drain(r.decoder.keys, r.decoder.State(), r.receive.Contents(), r.decoy).payloads;
    assert more == [] && Received(more) == [];
    assert r.given + [] + [] == r.given;
    assert w.packets[..|w.packets|] == w.packets;
  }
}
