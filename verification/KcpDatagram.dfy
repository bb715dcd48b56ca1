/** What `flush` puts into datagrams, and that the peer's `input` takes exactly that out. */
module KcpDatagram {
  import opened Words
  import opened KcpWire
  import opened KcpSpec
  import opened KcpInvariant

  /** A datagram whose size is within bounds and whose segments all satisfy `ok`. */
  ghost predicate Good(dg: seq<Segment>, mtu: int, ok: Segment -> bool) {
    && dg != [] && WireSize(dg) <= mtu
    && forall i :: 0 <= i < |dg| ==> ok(dg[i])
  }

  ghost predicate AllGood(out: seq<seq<Segment>>, mtu: int, ok: Segment -> bool) {
    forall i :: 0 <= i < |out| ==> Good(out[i], mtu, ok)
  }

  ghost predicate Packing(p: Packer, mtu: int, ok: Segment -> bool) {
    && AllGood(p.out, mtu, ok)
    && (p.cur == [] || Good(p.cur, mtu, ok))
  }

  lemma PutPacks(p: Packer, s: Segment, mtu: int, ok: Segment -> bool)
    requires mtu >= 0 && Packing(p, mtu, ok) && ok(s) && OVERHEAD + |s.data| <= mtu
    ensures Packing(Room(p, OVERHEAD, mtu), mtu, ok)
    ensures Packing(Add(Room(p, OVERHEAD + |s.data|, mtu), s), mtu, ok)
  {
    WireSizeAppend(Room(p, OVERHEAD + |s.data|, mtu).cur, s);
  }

  lemma {:induction false} PutAcksPacks(acks: seq<(u32, u32)>, i: nat, ctrl: Segment, rcvNxt: u32,
                                        mtu: nat, p: Packer, ok: Segment -> bool)
    requires i <= |acks| && ctrl.data == [] && mtu >= OVERHEAD && Packing(p, mtu, ok)
    requires forall j :: 0 <= j < |acks| ==> ok(ctrl.(sn := acks[j].0, ts := acks[j].1))
    ensures Packing(PutAcks(acks, i, ctrl, rcvNxt, mtu, p), mtu, ok)
    decreases |acks| - i
  {
    if i < |acks| {
      var seg := ctrl.(sn := acks[i].0, ts := acks[i].1);
      PutPacks(p, seg, mtu, ok);
      var p1 := Room(p, OVERHEAD, mtu);
      var p2 := if TimeDiff(acks[i].0, rcvNxt) >= 0 || i == |acks| - 1 then Add(p1, seg) else p1;
      PutAcksPacks(acks, i + 1, ctrl, rcvNxt, mtu, p2, ok);
    }
  }

  /** What a buffered segment looks like once `flush` has stamped and emitted it. */
  ghost predicate EmittedFrom(s: Segment, t: Segment, wnd: u16, una: u32) {
    !s.acked && t == OnWire(s).(ts := t.ts, wnd := wnd, una := una)
  }

  lemma VisitPacks(seg: Segment, w: Pass, current: u32, tick: nat, p: Packer, ok: Segment -> bool)
    requires Packing(p, w.mtu, ok) && OVERHEAD + |seg.data| <= w.mtu
    requires forall t :: EmittedFrom(seg, t, w.wnd, w.una) ==> ok(t)
    ensures Packing(Visit(seg, w, current, tick, p).p, w.mtu, ok)
  {
    if !seg.acked && Due(seg, w, current) {
      var sent := Stamp(Rearm(seg, w, current), w, w.clock(tick));
      assert EmittedFrom(seg, OnWire(sent), w.wnd, w.una);
      PutPacks(p, OnWire(sent), w.mtu, ok);
    }
  }

  lemma {:induction false} SweepPacks(todo: seq<Segment>, w: Pass, current: u32, tick: nat, p: Packer,
                                      ok: Segment -> bool)
    requires Packing(p, w.mtu, ok) && Small(todo, w.mtu - OVERHEAD)
    requires forall s, t :: s in todo && EmittedFrom(s, t, w.wnd, w.una) ==> ok(t)
    ensures Packing(Sweep(todo, w, current, tick, p).1, w.mtu, ok)
  {
    if todo != [] {
      var v := Visit(todo[0], w, current, tick, p);
      VisitPacks(todo[0], w, current, tick, p, ok);
      SweepPacks(todo[1..], w, v.current, v.tick, v.p, ok);
    }
  }

  /** The segments an ACK, a probe or a data emission of `flush` may produce. */
  ghost predicate Covers(k: Endpoint, env: Env, ok: Segment -> bool) {
    && (forall j :: 0 <= j < |k.acklist| ==> ok(Control(k).(sn := k.acklist[j].0, ts := k.acklist[j].1)))
    && ok(AfterAcks(k).(cmd := CMD_WASK)) && ok(AfterAcks(k).(cmd := CMD_WINS))
    && (forall s, t :: s in Refilled(k, env).sndBuf && EmittedFrom(s, t, Unused(k), k.rcvNxt) ==> ok(t))
  }

  lemma AnnouncedPacks(k: Endpoint, env: Env, ok: Segment -> bool)
    requires Valid(k) && Covers(k, env, ok)
    ensures Packing(AckPacker(k), k.mtu, ok) && Packing(Announced(k, env), k.mtu, ok)
  {
    PutAcksPacks(k.acklist, 0, Control(k), k.rcvNxt, k.mtu, Packer([], []), ok);
    var k1 := Probe(k, env.clock(0));
    var wask := AfterAcks(k).(cmd := CMD_WASK);
    PutPacks(AckPacker(k), wask, k.mtu, ok);
    var p := PutProbe(k1.askSend, wask, k.mtu, AckPacker(k));
    PutPacks(p, AfterAcks(k).(cmd := CMD_WINS), k.mtu, ok);
  }

  /** Whatever holds of all segments `flush` may emit holds of every segment it does. */
  lemma FlushPacks(k: Endpoint, ackOnly: bool, env: Env, ok: Segment -> bool)
    requires Valid(k) && Covers(k, env, ok)
    ensures AllGood(Flush(k, ackOnly, env).out, k.mtu, ok)
  {
    AnnouncedPacks(k, env, ok);
    if !ackOnly {
      RefilledKeeps(k, env);
      SweepPacks(Refilled(k, env).sndBuf, FlushPass(k, env), env.clock(1), 2, Announced(k, env), ok);
    }
  }

  /** A segment the peer's parser accepts and rebuilds field by field. */
  ghost predicate Parsable(s: Segment, conv: u32, mss: int) {
    s.conv == conv && KnownCommand(s.cmd) && |s.data| <= mss && s == OnWire(s)
  }

  /** The parsing loop on a datagram of known segments. */
  function ProcessAll(k: Endpoint, dg: seq<Segment>, regular: bool, slides: bool): Parsed
    decreases |dg|
  {
    if dg == [] then Parsed(k, slides, 0)
    else ProcessAll(Process(k, dg[0], regular), dg[1..], regular, slides || Slides(k, dg[0].una))
  }

  lemma ProcessFrame(k: Endpoint, seg: Segment, regular: bool)
    ensures Process(k, seg, regular).conv == k.conv
    ensures Process(k, seg, regular).sndQueue == k.sndQueue
    ensures Process(k, seg, regular).mtu == k.mtu && Process(k, seg, regular).stream == k.stream
  {
    var k1 := Acknowledge(if regular then k.(rmtWnd := seg.wnd) else k, seg.una);
    assert k1 == k.(sndBuf := k1.sndBuf, sndUna := k1.sndUna, rmtWnd := k1.rmtWnd);
  }

  lemma {:induction false} InputLoopParses(k: Endpoint, dg: seq<Segment>, mss: int, regular: bool, slides: bool)
    requires mss < TWO32 && forall i :: 0 <= i < |dg| ==> Parsable(dg[i], k.conv, mss)
    ensures Sized(dg)
    ensures InputLoop(k, EncodeAll(dg), regular, slides) == ProcessAll(k, dg, regular, slides)
    ensures ProcessAll(k, dg, regular, slides).code == 0
    decreases |dg|
  {
    assert Sized(dg);
    if dg != [] {
      var rest := dg[1..];
      assert Sized(rest);
      DecodeEncode(dg[0], EncodeAll(rest));
      ProcessFrame(k, dg[0], regular);
      InputLoopParses(Process(k, dg[0], regular), rest, mss, regular, slides || Slides(k, dg[0].una));
    }
  }

  lemma SentIsParsable(k: Endpoint, s: Segment, t: Segment, wnd: u16, una: u32)
    requires Valid(k) && s in k.sndBuf && EmittedFrom(s, t, wnd, una)
    ensures Parsable(t, k.conv, k.Mss())
  {
  }

  lemma ControlIsParsable(k: Endpoint)
    ensures forall j :: 0 <= j < |k.acklist| ==>
              Parsable(Control(k).(sn := k.acklist[j].0, ts := k.acklist[j].1), k.conv, k.Mss())
    ensures Parsable(AfterAcks(k).(cmd := CMD_WASK), k.conv, k.Mss())
    ensures Parsable(AfterAcks(k).(cmd := CMD_WINS), k.conv, k.Mss())
  {
  }

  /** All that `flush` emits is parsable by a peer of the same conversation. */
  lemma FlushParsable(k: Endpoint, ackOnly: bool, env: Env)
    requires Valid(k)
    ensures AllGood(Flush(k, ackOnly, env).out, k.mtu, s => Parsable(s, k.conv, k.Mss()))
  {
    var ok := s => Parsable(s, k.conv, k.Mss());
    RefilledKeeps(k, env);
    forall s, t | s in Refilled(k, env).sndBuf && EmittedFrom(s, t, Unused(k), k.rcvNxt)
      ensures ok(t)
    {
      SentIsParsable(Refilled(k, env), s, t, Unused(k), k.rcvNxt);
    }
    ControlIsParsable(k);
    FlushPacks(k, ackOnly, env, ok);
  }

  /** Every datagram is between 24 and `mtu` bytes, and any peer of the same
      conversation parses it back into exactly the segments it was made of. */
  lemma FlushRoundTrip(k: Endpoint, ackOnly: bool, env: Env, dg: seq<Segment>,
                       peer: Endpoint, regular: bool, ackNoDelay: bool, env': Env)
    requires Valid(k) && peer.conv == k.conv && dg in Flush(k, ackOnly, env).out
    ensures Sized(dg)
    ensures OVERHEAD <= |EncodeAll(dg)| <= k.mtu
    ensures InputLoop(peer, EncodeAll(dg), regular, false) == ProcessAll(peer, dg, regular, false)
    ensures Input(peer, EncodeAll(dg), regular, ackNoDelay, env').code == 0
  {
    FlushParsable(k, ackOnly, env);
    assert Good(dg, k.mtu, s => Parsable(s, k.conv, k.Mss()));
    InputLoopParses(peer, dg, k.Mss(), regular, false);
    EncodeAllSize(dg);
  }
}
