/** Receive tokens are conserved by every interleaving of receiving, reading and closing,
    so a session never buffers more than its limit and one frame. */
module SmuxTokens {
  import opened Words
  import opened SmuxFrames
  import opened SmuxSystem
  import opened SmuxDelivery

  ghost function Pick(m: map<u32, Inbox>): u32
    requires m != map[]
  {
    assert exists k :: k in m;
    var k :| k in m;
    k
  }

  /** Bytes buffered in all registered streams. */
  ghost function Held(m: map<u32, Inbox>): nat
    decreases |m|
  {
    if m == map[] then 0 else Length(m[Pick(m)].buffers) + Held(m - {Pick(m)})
  }

  lemma {:induction false} HeldSplit(m: map<u32, Inbox>, k: u32)
    requires k in m
    ensures Held(m) == Length(m[k].buffers) + Held(m - {k})
    decreases |m|
  {
    var p := Pick(m);
    if p != k {
      HeldSplit(m - {p}, k);
      HeldSplit(m - {k}, p);
      assert (m - {p}) - {k} == (m - {k}) - {p};
    }
  }

  lemma HeldUpdate(m: map<u32, Inbox>, k: u32, v: Inbox)
    ensures Held(m[k := v]) == Length(v.buffers) + Held(m - {k})
  {
    HeldSplit(m[k := v], k);
    assert m[k := v] - {k} == m - {k};
  }

  lemma {:induction false} LengthAppend(buffers: seq<seq<byte>>, b: seq<byte>)
    ensures Length(buffers + [b]) == Length(buffers) + |b|
  {
    if buffers == [] {
      assert buffers + [b] == [b];
    } else {
      assert (buffers + [b])[1..] == buffers[1..] + [b];
      LengthAppend(buffers[1..], b);
    }
  }

  /** What the bucket stands for when nothing wraps. */
  ghost function Free(max: nat, a: Acceptor): int {
    max - Held(a.streams) - a.credit + a.debt
  }

  /** The bucket is that, modulo 2^32, for every limit. */
  ghost predicate Counted(max: nat, a: Acceptor) {
    && a.bucket == AsI32(Free(max, a)) && a.debt <= 65535
    && (a.ready ==> a.debt == 0)
    && forall sid :: sid in a.gone ==> a.gone[sid].buffers == []
  }

  /** For a limit that leaves room for one frame below 2^31 it never wraps. */
  ghost predicate Tokens(max: nat, a: Acceptor) {
    && Counted(max, a)
    && (max + 65535 < TWO31 ==>
          && a.bucket == Free(max, a) && -65534 <= a.bucket - a.debt
          && (a.ready ==> a.bucket > 0))
  }

  lemma HandleTokens(max: nat, a: Acceptor, f: Frame)
    requires Tokens(max, a) && a.ready && (InStrand(f) ==> WellFormed(f))
    ensures Tokens(max, Handle(a, f))
  {
    if f.sid in a.streams {
      var box := a.streams[f.sid];
      HeldSplit(a.streams, f.sid);
      HeldUpdate(a.streams, f.sid, box.(fin := true));
      HeldUpdate(a.streams, f.sid, box.(buffers := box.buffers + [f.data]));
      LengthAppend(box.buffers, f.data);
    } else {
      HeldUpdate(a.streams, f.sid, EMPTY);
      assert a.streams - {f.sid} == a.streams;
    }
  }

  lemma ReadTokens(max: nat, a: Acceptor, sid: u32, capacity: nat)
    requires Tokens(max, a)
    ensures Tokens(max, DoRead(a, sid, capacity))
  {
    if sid in a.streams {
      var box := a.streams[sid];
      HeldSplit(a.streams, sid);
      HeldUpdate(a.streams, sid, AfterTake(box, capacity));
      if box.buffers != [] {
        var n, front := Take(box, capacity), box.buffers[0];
        assert ([front[n..]] + box.buffers[1..])[1..] == box.buffers[1..];
        assert Length(AfterTake(box, capacity).buffers) + n == Length(box.buffers);
      }
    }
  }

  lemma CloseTokens(max: nat, a: Acceptor, sid: u32)
    requires Tokens(max, a)
    ensures Tokens(max, DoClose(a, sid))
  {
    if sid in a.streams {
      HeldSplit(a.streams, sid);
    }
  }

  /** What is buffered does not depend on the marks of a stream. */
  lemma MarkTokens(max: nat, a: Acceptor, sid: u32, box: Inbox)
    requires Tokens(max, a) && Known(a, sid) && box.buffers == BoxOf(a, sid).buffers
    ensures Tokens(max, WithBox(a, sid, box))
  {
    if sid in a.streams {
      HeldSplit(a.streams, sid);
      HeldUpdate(a.streams, sid, box);
    }
  }

  lemma SettleTokens(max: nat, a: Acceptor)
    requires Tokens(max, a)
    ensures Tokens(max, a.(bucket := AsI32(a.bucket - a.debt), debt := 0))
  {
    hide Wrap, Held;
    AsI32Sum(Free(max, a), -(a.debt as int));
    if max + 65535 < TWO31 {
      AsI32Small(a.bucket - a.debt);
    }
  }

  lemma ReturnTokens(max: nat, a: Acceptor, n: nat)
    requires Tokens(max, a) && n <= a.credit
    ensures Tokens(max, a.(bucket := AsI32(a.bucket + n), credit := a.credit - n))
  {
    hide Wrap, Held;
    AsI32Sum(Free(max, a), n);
    if max + 65535 < TWO31 {
      AsI32Small(a.bucket + n);
    }
  }

  lemma StepTokens(s: Sys, step: Step)
    requires Inv(s) && Tokens(s.max, s.acceptor) && Enabled(s, step)
    ensures Tokens(s.max, Apply(s, step).acceptor)
  {
    hide Inv, Yields, MaySay, Wrap;
    var a := s.acceptor;
    match step
    case Receive =>
      var f := s.sender.wire[|a.taken|];
      if InStrand(f) {
        NextContinues(s, f);
      }
      HandleTokens(s.max, a, f);
    case Settle => SettleTokens(s.max, a);
    case Return(n) => ReturnTokens(s.max, a, n);
    case Read(sid, capacity) => ReadTokens(s.max, a, sid, capacity);
    case Close(sid) => CloseTokens(s.max, a, sid);
    case Shut(sid) =>
      if Known(a, sid) {
        MarkTokens(s.max, a, sid, BoxOf(a, sid).(shut := true));
      }
    case Miss(sid) => MarkTokens(s.max, a, sid, BoxOf(a, sid).(missed := true));
    case End(sid) =>
      var box := BoxOf(a, sid);
      MarkTokens(s.max, a, sid, box.(missed := false, ends := box.ends + [box.shut]));
    case _ =>
  }

  lemma {:induction false} RunTokens(s: Sys, steps: seq<Step>)
    requires Inv(s) && Tokens(s.max, s.acceptor)
    ensures Tokens(s.max, Run(s, steps).acceptor)
    decreases |steps|
  {
    if steps != [] {
      hide Inv, Tokens, Enabled, Apply;
      var s1 := if Enabled(s, steps[0]) then Apply(s, steps[0]) else s;
      if Enabled(s, steps[0]) {
        StepKeeps(s, steps[0]);
        StepTokens(s, steps[0]);
        SameMax(s, steps[0]);
      }
      RunTokens(s1, steps[1..]);
    }
  }

  lemma SameMax(s: Sys, step: Step)
    requires Enabled(s, step)
    ensures Apply(s, step).max == s.max
  {
  }

  lemma StartTokens(max: nat)
    ensures Tokens(max, Start(max).acceptor)
  {
    if max + 65535 < TWO31 {
      AsI32Small(max);
    }
  }

  /** Bucket, buffered bytes and tokens on their way make up the limit, as integers. */
  ghost predicate Conserved(max: nat, a: Acceptor) {
    a.bucket + Held(a.streams) + a.credit - a.debt == max
  }

  /** Conservation modulo 2^32 holds for every limit and every run. */
  lemma TokensModulo(max: nat, steps: seq<Step>)
    ensures var a := Run(Start(max), steps).acceptor;
            a.bucket == AsI32(max - Held(a.streams) - a.credit + a.debt)
  {
    hide Held;
    StartTokens(max);
    RunTokens(Start(max), steps);
  }

  /** With room for one frame below 2^31: no more than the limit and one frame is ever
      buffered, and when nothing is buffered or on its way the bucket is full again. */
  lemma BufferBound(max: nat, steps: seq<Step>)
    requires max + 65535 < TWO31
    ensures var a := Run(Start(max), steps).acceptor;
            && Conserved(max, a) && Held(a.streams) <= max + 65534
            && -65534 <= a.bucket <= max + 65535
            && (Held(a.streams) == 0 && a.credit == 0 && a.debt == 0 ==> a.bucket == max)
  {
    hide Held;
    StartTokens(max);
    RunTokens(Start(max), steps);
  }

  // ---- Where it stops ----

  /** A stream is opened and sends one frame of the largest size, and its reader is faster
      than the receive loop's bookkeeping: the tokens come back before they were taken. */
  lemma Overshoot(max: nat) returns (steps: seq<Step>)
    requires 0 < max < TWO31
    ensures var a := Run(Start(max), steps).acceptor;
            Held(a.streams) == 0 && a.credit == 0 && a.debt == 65535
  {
    hide Run, Tokens;
    var syn, data := Frame(CMD_SYN, 1, []), Frame(CMD_PSH, 1, Zeros(65535));
    AsI32Small(max);
    RunStart(max);
    var s := Start(max);
    steps := [];
    steps, s := Transmit(max, steps, s, syn);
    steps, s := Transmit(max, steps, s, data);
    assert s.sender.wire == [syn, data];
    steps, s := Receiving(max, steps, s);
    assert s.acceptor.streams == map[1 := EMPTY];
    steps, s := Receiving(max, steps, s);
    assert [] + [data.data] == [data.data];
    assert s.acceptor.streams == map[1 := EMPTY.(buffers := [data.data])];
    steps, s := Emptying(max, steps, s, data.data);
  }

  /** One read takes all there is and gives back the tokens. */
  lemma Emptying(max: nat, steps0: seq<Step>, s0: Sys, data: seq<byte>) returns (steps: seq<Step>, s: Sys)
    requires s0 == Run(Start(max), steps0) && s0.acceptor.credit == 0
    requires s0.acceptor.streams == map[1 := EMPTY.(buffers := [data])]
    ensures s == Run(Start(max), steps)
    ensures Held(s.acceptor.streams) == 0 && s.acceptor.credit == 0 && s.acceptor.debt == s0.acceptor.debt
  {
    hide Run, Yields, MaySay, DoSubmit, DoWrite, Handle, DoClose, Number;
    var box := EMPTY.(buffers := [data]);
    steps, s := Go(max, steps0, s0, Read(1, |data|));
    steps, s := Go(max, steps, s, Return(|data|));
    HeldUpdate(map[], 1, AfterTake(box, |data|));
    assert s.acceptor.streams == map[][1 := AfterTake(box, |data|)];
  }

  /** For any other limit some run breaks conservation: at once when the limit does not fit
      the bucket, otherwise by overshooting it. */
  lemma Overflows(max: nat) returns (steps: seq<Step>)
    requires max + 65535 >= TWO31
    ensures !Conserved(max, Run(Start(max), steps).acceptor)
  {
    hide Held;
    if max >= TWO31 {
      steps := [];
      TokensModulo(max, steps);
      NothingHeld();
    } else {
      steps := Overshoot(max);
      TokensModulo(max, steps);
    }
  }

  lemma NothingHeld()
    ensures Held(map[]) == 0
  {
  }

  /** Conservation over all runs, exactly for the limits that leave room for one frame below
      2^31; `verify` asks no such thing of the limit. */
  lemma TokenConservation(max: nat)
    ensures (forall steps :: Conserved(max, Run(Start(max), steps).acceptor)) <==> max + 65535 < TWO31
  {
    hide Conserved, Run;
    if max + 65535 < TWO31 {
      forall steps ensures Conserved(max, Run(Start(max), steps).acceptor) {
        BufferBound(max, steps);
      }
    } else {
      var steps := Overflows(max);
    }
  }
}
