/** Over every interleaving of the tasks of two smux sessions, the acceptor reads a prefix of
    what the opener wrote. An end-of-stream it is told of comes after FIN and every byte
    before it, unless its own side had begun to close the stream. */
module SmuxDelivery {
  import opened Words
  import opened SmuxFrames
  import opened SmuxSystem

  /** The SYN, PSH and FIN frames of one stream, in order. */
  function Strand(fs: seq<Frame>, sid: u32): seq<Frame> {
    if fs == [] then []
    else
      var last := fs[|fs| - 1];
      Strand(fs[..|fs| - 1], sid) + (if InStrand(last) && last.sid == sid then [last] else [])
  }

  lemma StrandAppend(fs: seq<Frame>, f: Frame, sid: u32)
    ensures Strand(fs + [f], sid) == Strand(fs, sid) + (if InStrand(f) && f.sid == sid then [f] else [])
  {
    assert (fs + [f])[..|fs|] == fs;
  }

  lemma {:induction false} StrandPrefix(fs: seq<Frame>, n: nat, sid: u32)
    requires n <= |fs|
    ensures Strand(fs[..n], sid) <= Strand(fs, sid)
  {
    if n < |fs| {
      var front := fs[..|fs| - 1];
      assert fs[..n] == front[..n];
      StrandPrefix(front, n, sid);
    } else {
      assert fs[..n] == fs;
    }
  }

  function Payload(fs: seq<Frame>): seq<byte> {
    if fs == [] then [] else Payload(fs[..|fs| - 1]) + fs[|fs| - 1].data
  }

  lemma PayloadAppend(fs: seq<Frame>, f: Frame)
    ensures Payload(fs + [f]) == Payload(fs) + f.data
  {
    assert (fs + [f])[..|fs|] == fs;
  }

  lemma {:induction false} PayloadPrefix(a: seq<Frame>, b: seq<Frame>)
    requires a <= b
    ensures Payload(a) <= Payload(b)
  {
    if |a| < |b| {
      PayloadPrefix(a, b[..|b| - 1]);
    } else {
      assert a == b;
    }
  }

  // ---- The sender: one frame of a stream in flight at a time ----

  /** SYN first, FIN only last, data in between. */
  ghost predicate Shape(said: seq<Frame>, sid: u32) {
    && said != []
    && forall i :: 0 <= i < |said| ==>
         && said[i].sid == sid && WellFormed(said[i])
         && (said[i].cmd == CMD_SYN <==> i == 0)
         && (said[i].cmd == CMD_PSH || said[i].cmd == CMD_SYN || (said[i].cmd == CMD_FIN && i == |said| - 1))
  }

  function Done(w: Writer): seq<Frame>
    requires w.said != []
  {
    if w.busy then w.said[..|w.said| - 1] else w.said
  }

  ghost predicate Fresh(s: Sender) {
    && s.posted !! s.heap
    && forall r :: r in s.posted + s.heap ==> r.ticket <= s.tickets
  }

  /** A pending frame of a stream is the last thing its task said, and the only one. */
  ghost predicate Awaited(s: Sender) {
    && (forall r :: r in s.posted + s.heap && InStrand(r.frame) ==>
          && r.frame.sid in s.writers && s.writers[r.frame.sid].busy
          && s.writers[r.frame.sid].said != []
          && r.frame == s.writers[r.frame.sid].said[|s.writers[r.frame.sid].said| - 1])
    && (forall r, q :: (r in s.posted + s.heap && q in s.posted + s.heap
                        && InStrand(r.frame) && InStrand(q.frame) && r.frame.sid == q.frame.sid) ==> r == q)
  }

  ghost predicate Wired(s: Sender) {
    && (forall sid :: sid in s.writers ==>
          Shape(s.writers[sid].said, sid) && Strand(s.wire, sid) == Done(s.writers[sid]))
    && (forall sid :: sid !in s.writers ==> Strand(s.wire, sid) == [])
  }

  ghost predicate SenderInv(s: Sender) {
    Fresh(s) && Awaited(s) && Wired(s)
  }

  lemma SubmitWires(s: Sender, sid: u32, f: Frame)
    requires Wired(s) && MaySay(s, sid, f)
    ensures Wired(DoSubmit(s, sid, f))
  {
    hide Strand;
    var said := if sid in s.writers then s.writers[sid].said else [];
    assert (said + [f])[..|said|] == said;
  }

  lemma SubmitAwaits(s: Sender, sid: u32, f: Frame)
    requires Fresh(s) && Awaited(s) && MaySay(s, sid, f)
    ensures Fresh(DoSubmit(s, sid, f)) && Awaited(DoSubmit(s, sid, f))
  {
    var s' := DoSubmit(s, sid, f);
    var new' := Number(s, f.cmd == CMD_SYN, f);
    assert s'.posted + s'.heap == s.posted + s.heap + {new'};
    assert forall r :: r in s.posted + s.heap && InStrand(r.frame) ==> r.frame.sid != sid;
  }

  lemma SubmitKeeps(s: Sender, sid: u32, f: Frame)
    requires SenderInv(s) && MaySay(s, sid, f)
    ensures SenderInv(DoSubmit(s, sid, f))
  {
    hide Wired, Awaited, Fresh, MaySay, DoSubmit;
    SubmitWires(s, sid, f);
    SubmitAwaits(s, sid, f);
  }

  lemma SubmitOtherKeeps(s: Sender, f: Frame)
    requires SenderInv(s) && !InStrand(f)
    ensures SenderInv(s.(tickets := s.tickets + 1, posted := s.posted + {Number(s, true, f)}))
  {
  }

  lemma EnqueueKeeps(s: Sender, r: Request)
    requires SenderInv(s) && r in s.posted
    ensures SenderInv(s.(posted := s.posted - {r}, heap := s.heap + {r}))
  {
    assert (s.posted - {r}) + (s.heap + {r}) == s.posted + s.heap;
  }

  lemma WriteWires(s: Sender, r: Request)
    requires Wired(s) && Awaited(s) && r in s.heap
    ensures Wired(DoWrite(s, r))
  {
    hide Strand;
    var s' := DoWrite(s, r);
    forall sid: u32
      ensures sid in s'.writers ==>
                Shape(s'.writers[sid].said, sid) && Strand(s'.wire, sid) == Done(s'.writers[sid])
      ensures sid !in s'.writers ==> Strand(s'.wire, sid) == []
    {
      StrandAppend(s.wire, r.frame, sid);
    }
  }

  lemma WriteKeeps(s: Sender, r: Request)
    requires SenderInv(s) && r in s.heap
    ensures SenderInv(DoWrite(s, r))
  {
    WriteWires(s, r);
    hide Wired, Strand;
    var s' := DoWrite(s, r);
    assert s'.posted + s'.heap == (s.posted + s.heap) - {r};
    forall q | q in s'.posted + s'.heap && InStrand(q.frame)
      ensures InStrand(r.frame) ==> q.frame.sid != r.frame.sid
    {
    }
  }

  // ---- The acceptor: a prefix of the wire, stream by stream ----

  ghost predicate Ended(fs: seq<Frame>) {
    fs != [] && fs[|fs| - 1].cmd == CMD_FIN
  }

  ghost predicate Registered(box: Inbox, strand: seq<Frame>) {
    && strand != []
    && box.read + Concat(box.buffers) == Payload(strand)
    && (box.fin <==> Ended(strand))
    && (false in box.ends ==> box.fin && box.buffers == [])
  }

  ghost predicate Left(box: Inbox, strand: seq<Frame>) {
    && strand != [] && box.shut && box.buffers == []
    && box.read <= Payload(strand)
    && (false in box.ends ==> Ended(strand) && box.read == Payload(strand))
  }

  /** What the acceptor knows of one stream: registered, closed by it, or not begun. */
  ghost predicate Tracked(a: Acceptor, sid: u32) {
    var strand := Strand(a.taken, sid);
    if sid in a.streams then sid !in a.gone && Registered(a.streams[sid], strand)
    else if sid in a.gone then Left(a.gone[sid], strand)
    else strand == []
  }

  ghost predicate AcceptorInv(a: Acceptor) {
    forall sid: u32 :: Tracked(a, sid)
  }

  ghost predicate Inv(s: Sys) {
    SenderInv(s.sender) && AcceptorInv(s.acceptor) && s.acceptor.taken <= s.sender.wire
  }

  /** A frame that continues what has been received of its stream. */
  ghost predicate Continues(f: Frame, sofar: seq<Frame>) {
    WellFormed(f) && (f.cmd == CMD_SYN <==> sofar == []) && !Ended(sofar)
  }

  lemma ShapeContinues(said: seq<Frame>, sid: u32, sofar: seq<Frame>, f: Frame)
    requires Shape(said, sid) && sofar + [f] <= said
    ensures Continues(f, sofar)
  {
    assert said[|sofar|] == f;
    if sofar != [] {
      assert said[|sofar| - 1] == sofar[|sofar| - 1];
    }
  }

  lemma NextContinues(s: Sys, f: Frame)
    requires Inv(s) && |s.acceptor.taken| < |s.sender.wire| && f == s.sender.wire[|s.acceptor.taken|]
    requires InStrand(f)
    ensures Continues(f, Strand(s.acceptor.taken, f.sid))
  {
    hide AcceptorInv, Fresh, Awaited;
    var w, n := s.sender, |s.acceptor.taken|;
    assert w.wire[..n + 1] == s.acceptor.taken + [f];
    StrandAppend(s.acceptor.taken, f, f.sid);
    StrandPrefix(w.wire, n + 1, f.sid);
    hide Strand, Shape, Continues;
    ShapeContinues(w.writers[f.sid].said, f.sid, Strand(s.acceptor.taken, f.sid), f);
  }

  lemma RegisteredGrows(box: Inbox, sofar: seq<Frame>, f: Frame)
    requires Registered(box, sofar) && InStrand(f) && Continues(f, sofar)
    ensures f.cmd != CMD_SYN
    ensures f.cmd == CMD_PSH ==> f.data != [] && Registered(box.(buffers := box.buffers + [f.data]), sofar + [f])
    ensures f.cmd == CMD_FIN ==> Registered(box.(fin := true), sofar + [f])
  {
    PayloadAppend(sofar, f);
    ConcatAppend(box.buffers, f.data);
    hide Payload, Concat;
    assert box.read + (Concat(box.buffers) + f.data) == box.read + Concat(box.buffers) + f.data;
  }

  lemma LeftGrows(box: Inbox, sofar: seq<Frame>, f: Frame)
    requires Left(box, sofar) && Continues(f, sofar)
    ensures f.cmd != CMD_SYN && Left(box, sofar + [f])
  {
    PayloadAppend(sofar, f);
    hide Payload;
  }

  lemma RegisteredBegins(f: Frame)
    requires InStrand(f) && Continues(f, [])
    ensures f.cmd == CMD_SYN && Registered(EMPTY, [f])
  {
    PayloadAppend([], f);
    assert [] + [f] == [f];
  }

  lemma HandleTracks(a: Acceptor, f: Frame, sid: u32)
    requires Tracked(a, sid) && (InStrand(f) ==> Continues(f, Strand(a.taken, f.sid)))
    ensures Tracked(Handle(a, f), sid)
  {
    hide Strand, Registered, Left, Continues;
    StrandAppend(a.taken, f, sid);
    var sofar := Strand(a.taken, sid);
    if InStrand(f) && f.sid == sid {
      if sid in a.streams {
        RegisteredGrows(a.streams[sid], sofar, f);
      } else if sid in a.gone {
        LeftGrows(a.gone[sid], sofar, f);
      } else {
        RegisteredBegins(f);
        assert sofar + [f] == [f];
      }
    } else {
      assert sofar + [] == sofar;
    }
  }

  lemma HandleKeeps(s: Sys)
    requires Inv(s) && |s.acceptor.taken| < |s.sender.wire|
    ensures AcceptorInv(Handle(s.acceptor, s.sender.wire[|s.acceptor.taken|]))
  {
    var a, f := s.acceptor, s.sender.wire[|s.acceptor.taken|];
    if InStrand(f) {
      NextContinues(s, f);
    }
    forall sid: u32 ensures Tracked(Handle(a, f), sid) {
      assert Tracked(a, sid);
      HandleTracks(a, f, sid);
    }
  }

  /** Reading moves bytes from the front of the buffers to the reader, nothing else. */
  lemma AfterTakeKeeps(box: Inbox, capacity: nat)
    ensures var b := AfterTake(box, capacity);
            && b.read + Concat(b.buffers) == box.read + Concat(box.buffers)
            && b.fin == box.fin && b.ends == box.ends && (box.buffers == [] ==> b == box)
  {
    if box.buffers != [] {
      var n, front := Take(box, capacity), box.buffers[0];
      assert front[..n] + front[n..] == front;
      assert ([front[n..]] + box.buffers[1..])[1..] == box.buffers[1..];
    }
  }

  lemma ReadKeeps(a: Acceptor, sid: u32, capacity: nat)
    requires AcceptorInv(a)
    ensures AcceptorInv(DoRead(a, sid, capacity))
  {
    if sid in a.streams {
      AfterTakeKeeps(a.streams[sid], capacity);
      hide AfterTake, Strand, Payload;
      forall other: u32 ensures Tracked(DoRead(a, sid, capacity), other) {
        assert Tracked(a, other);
      }
    }
  }

  lemma CloseKeeps(a: Acceptor, sid: u32)
    requires AcceptorInv(a) && sid in a.streams && a.streams[sid].shut
    ensures AcceptorInv(DoClose(a, sid))
  {
    if sid in a.streams {
      var box := a.streams[sid];
      assert Tracked(a, sid);
      assert box.buffers == [] ==> box.read + Concat(box.buffers) == box.read;
      hide Strand, Payload, Concat;
      forall other: u32 ensures Tracked(DoClose(a, sid), other) {
        assert Tracked(a, other);
      }
    }
  }

  /** Marking a stream shut or missed, or telling its reader of an end that `fin` with empty
      buffers stands for, or one after its own side has shut it. */
  lemma MarkKeeps(a: Acceptor, sid: u32, box: Inbox)
    requires AcceptorInv(a) && Known(a, sid)
    requires var was := BoxOf(a, sid);
             && box.buffers == was.buffers && box.fin == was.fin && box.read == was.read
             && (was.shut ==> box.shut)
             && (false in box.ends ==> false in was.ends || (!was.shut && was.fin && was.buffers == []))
    ensures AcceptorInv(WithBox(a, sid, box))
  {
    hide Strand, Payload, Concat;
    forall other: u32 ensures Tracked(WithBox(a, sid, box), other) {
      assert Tracked(a, other) && Tracked(a, sid);
    }
  }

  /** Only the token accounts differ. */
  lemma AccountsKeep(a: Acceptor, a': Acceptor)
    requires AcceptorInv(a) && a'.taken == a.taken && a'.streams == a.streams && a'.gone == a.gone
    ensures AcceptorInv(a')
  {
    forall sid: u32 ensures Tracked(a', sid) {
      assert Tracked(a, sid);
    }
  }

  lemma StepKeeps(s: Sys, step: Step)
    requires Inv(s) && Enabled(s, step)
    ensures Inv(Apply(s, step))
  {
    hide AcceptorInv, Fresh, Awaited, Wired, Strand, Yields, MaySay, DoSubmit, DoClose, DoRead, Handle;
    var a := s.acceptor;
    match step
    case Submit(sid, f) => SubmitKeeps(s.sender, sid, f); SubmitWire(s.sender, sid, f);
    case SubmitOther(f) => SubmitOtherKeeps(s.sender, f);
    case Enqueue(r) => EnqueueKeeps(s.sender, r);
    case WriteNext(r) => YieldedIn(s.sender.heap, r); WriteKeeps(s.sender, r);
    case Die => DieKeeps(s.sender);
    case Receive => HandleKeeps(s); HandleTakes(s.acceptor, s.sender.wire[|s.acceptor.taken|]);
    case Read(sid, capacity) => ReadKeeps(s.acceptor, sid, capacity); ReadTakes(s.acceptor, sid, capacity);
    case Close(sid) => CloseKeeps(s.acceptor, sid); CloseTakes(s.acceptor, sid);
    case Shut(sid) =>
      if Known(a, sid) {
        MarkKeeps(a, sid, BoxOf(a, sid).(shut := true));
      }
    case Miss(sid) => MarkKeeps(a, sid, BoxOf(a, sid).(missed := true));
    case End(sid) =>
      var box := BoxOf(a, sid);
      MarkKeeps(a, sid, box.(missed := false, ends := box.ends + [box.shut]));
    case Check => AccountsKeep(s.acceptor, Apply(s, step).acceptor);
    case Settle => AccountsKeep(s.acceptor, Apply(s, step).acceptor);
    case Return(n) => AccountsKeep(s.acceptor, Apply(s, step).acceptor);
  }

  lemma DieKeeps(s: Sender)
    requires SenderInv(s)
    ensures SenderInv(s.(dead := true))
  {
  }

  lemma YieldedIn(heap: set<Request>, r: Request)
    requires Yields(heap, r)
    ensures r in heap
  {
  }

  lemma SubmitWire(s: Sender, sid: u32, f: Frame)
    ensures DoSubmit(s, sid, f).wire == s.wire
  {
  }

  lemma HandleTakes(a: Acceptor, f: Frame)
    ensures Handle(a, f).taken == a.taken + [f]
  {
  }

  lemma ReadTakes(a: Acceptor, sid: u32, capacity: nat)
    ensures DoRead(a, sid, capacity).taken == a.taken
  {
  }

  lemma CloseTakes(a: Acceptor, sid: u32)
    ensures DoClose(a, sid).taken == a.taken
  {
  }

  lemma {:induction false} RunKeeps(s: Sys, steps: seq<Step>)
    requires Inv(s)
    ensures Inv(Run(s, steps))
    decreases |steps|
  {
    if steps != [] {
      var s1 := if Enabled(s, steps[0]) then Apply(s, steps[0]) else s;
      if Enabled(s, steps[0]) {
        StepKeeps(s, steps[0]);
      }
      RunKeeps(s1, steps[1..]);
    }
  }

  /** A reader's log against everything the opener's task said on that stream. */
  ghost predicate Faithful(box: Inbox, said: seq<Frame>) {
    && box.read <= Payload(said)
    && (false in box.ends ==> Ended(said) && box.read == Payload(said))
  }

  lemma InvFaithful(s: Sys, sid: u32)
    requires Inv(s)
    ensures var a, w := s.acceptor, s.sender;
            && (sid in a.streams ==> sid in w.writers && Faithful(a.streams[sid], w.writers[sid].said))
            && (sid in a.gone ==> sid in w.writers && Faithful(a.gone[sid], w.writers[sid].said))
  {
    var a, w := s.acceptor, s.sender;
    var strand := Strand(a.taken, sid);
    assert Tracked(a, sid);
    if sid in a.streams || sid in a.gone {
      assert a.taken == w.wire[..|a.taken|];
      StrandPrefix(w.wire, |a.taken|, sid);
      var said := w.writers[sid].said;
      assert strand <= said;
      PayloadPrefix(strand, said);
      if Ended(strand) {
        assert said[|strand| - 1].cmd == CMD_FIN;
        assert strand == said;
      }
    }
  }

  /** In every run: what the acceptor's reader got of a stream is a prefix of what the
      opener's writer wrote, and all of it once end-of-stream was reported while the
      acceptor's side had not shut the stream. */
  lemma StreamDelivery(max: nat, steps: seq<Step>, sid: u32)
    ensures var s := Run(Start(max), steps); var a, w := s.acceptor, s.sender;
            && (sid in a.streams ==> sid in w.writers && Faithful(a.streams[sid], w.writers[sid].said))
            && (sid in a.gone ==> sid in w.writers && Faithful(a.gone[sid], w.writers[sid].said))
  {
    RunKeeps(Start(max), steps);
    InvFaithful(Run(Start(max), steps), sid);
  }

  // ---- When an end of stream is the end ----

  /** An end told of with the stream `shut` or not: the peer had finished, and nothing is missing. */
  ghost predicate Complete(s: Sys, sid: u32, shut: bool) {
    var a, w := s.acceptor, s.sender;
    Known(a, sid) && shut in BoxOf(a, sid).ends ==>
      && sid in w.writers && Ended(w.writers[sid].said)
      && BoxOf(a, sid).read == Payload(w.writers[sid].said)
  }

  /** A session whose bucket starts empty never receives anything. */
  lemma {:induction false} Starved(s: Sys, steps: seq<Step>)
    requires s.acceptor.bucket <= 0 && s.acceptor == Acceptor([], false, s.acceptor.bucket, 0, 0, map[], map[])
    ensures Run(s, steps).acceptor == s.acceptor
    decreases |steps|
  {
    if steps != [] {
      var s1 := if Enabled(s, steps[0]) then Apply(s, steps[0]) else s;
      StarvedStep(s, steps[0]);
      hide Enabled, Apply;
      Starved(s1, steps[1..]);
    }
  }

  lemma StarvedStep(s: Sys, step: Step)
    requires s.acceptor.bucket <= 0 && s.acceptor == Acceptor([], false, s.acceptor.bucket, 0, 0, map[], map[])
    ensures Enabled(s, step) ==> Apply(s, step).acceptor == s.acceptor
  {
    hide Yields, MaySay, Wrap;
    AsI32Small(s.acceptor.bucket);
  }

  /** The opener writes SYN, one byte and FIN; the byte is received; then the acceptor's side
      closes the stream, which throws the byte away, and its reader is told of an end. */
  lemma LostAtClose(max: nat) returns (steps: seq<Step>)
    requires AsI32(max) > 0
    ensures var s := Run(Start(max), steps); var a, w := s.acceptor, s.sender;
            && Known(a, 1) && true in BoxOf(a, 1).ends && BoxOf(a, 1).read == []
            && 1 in w.writers && Ended(w.writers[1].said) && Payload(w.writers[1].said) == [7]
  {
    hide Run;
    var syn, data, fin := Frame(CMD_SYN, 1, []), Frame(CMD_PSH, 1, [7]), Frame(CMD_FIN, 1, []);
    RunStart(max);
    var s := Start(max);
    steps := [];
    steps, s := Transmit(max, steps, s, syn);
    steps, s := Transmit(max, steps, s, data);
    steps, s := Transmit(max, steps, s, fin);
    assert s.sender.writers[1].said == [syn, data, fin];
    ThreeSaid(syn, data, fin);
    steps, s := Receiving(max, steps, s);
    assert s.acceptor.streams == map[1 := EMPTY];
    steps, s := Receiving(max, steps, s);
    var box := EMPTY.(buffers := [[7]]);
    assert [] + [data.data] == [[7]];
    assert s.acceptor.streams == map[1 := box];
    steps, s := Closing(max, steps, s, box);
  }

  lemma PayloadOne(f: Frame)
    ensures Payload([f]) == f.data
  {
    PayloadAppend([], f);
    assert [] + [f] == [f];
  }

  lemma ThreeSaid(syn: Frame, data: Frame, fin: Frame)
    ensures Payload([syn, data, fin]) == syn.data + data.data + fin.data
  {
    hide Payload;
    PayloadOne(syn);
    PayloadAppend([syn], data);
    PayloadAppend([syn, data], fin);
    assert [syn] + [data] == [syn, data] && [syn, data] + [fin] == [syn, data, fin];
  }

  /** Closed, looked at, and told that it is over. */
  lemma Closing(max: nat, steps0: seq<Step>, s0: Sys, box: Inbox) returns (steps: seq<Step>, s: Sys)
    requires s0 == Run(Start(max), steps0) && s0.acceptor.streams == map[1 := box]
    ensures s == Run(Start(max), steps) && s.sender == s0.sender
    ensures Known(s.acceptor, 1) && BoxOf(s.acceptor, 1).read == box.read && true in BoxOf(s.acceptor, 1).ends
  {
    hide Run, Yields, MaySay, DoSubmit, DoWrite, Handle, DoRead, Number, Length;
    steps, s := Go(max, steps0, s0, Shut(1));
    steps, s := Go(max, steps, s, Close(1));
    steps, s := Go(max, steps, s, Miss(1));
    steps, s := Go(max, steps, s, End(1));
  }

  lemma Incomplete(max: nat) returns (steps: seq<Step>)
    requires AsI32(max) > 0
    ensures !Complete(Run(Start(max), steps), 1, true)
  {
    steps := LostAtClose(max);
    hide Run, Payload;
  }

  /** Ends are complete in every run exactly when the reader's own side had not shut the
      stream before; with a bucket that starts empty there are no ends at all. */
  lemma EndOfStream(max: nat, shut: bool)
    ensures (forall steps, sid :: Complete(Run(Start(max), steps), sid, shut)) <==> !shut || AsI32(max) <= 0
  {
    hide Run, Complete;
    if !shut {
      forall steps, sid ensures Complete(Run(Start(max), steps), sid, shut) {
        EndsComplete(max, steps, sid);
      }
    } else if AsI32(max) <= 0 {
      forall steps, sid ensures Complete(Run(Start(max), steps), sid, shut) {
        Starved(Start(max), steps);
        NeverKnown(Run(Start(max), steps), sid, shut);
      }
    } else {
      var steps := Incomplete(max);
    }
  }

  lemma EndsComplete(max: nat, steps: seq<Step>, sid: u32)
    ensures Complete(Run(Start(max), steps), sid, false)
  {
    StreamDelivery(max, steps, sid);
    hide Run;
  }

  lemma NeverKnown(s: Sys, sid: u32, shut: bool)
    requires !Known(s.acceptor, sid)
    ensures Complete(s, sid, shut)
  {
  }

  /** On the wire every stream is SYN, data in write order, FIN. */
  lemma WireOrder(max: nat, steps: seq<Step>, sid: u32)
    ensures var w := Run(Start(max), steps).sender;
            if sid in w.writers
            then Shape(w.writers[sid].said, sid) && Strand(w.wire, sid) <= w.writers[sid].said
            else Strand(w.wire, sid) == []
  {
    RunKeeps(Start(max), steps);
  }

  // ---- Down to bytes ----

  /** A strand that is part of what was said carries part of its bytes, and the FIN comes last. */
  lemma PartOfSaid(part: seq<Frame>, got: seq<Frame>, said: seq<Frame>, sid: u32)
    requires part <= got <= said && Shape(said, sid)
    ensures part <= said && Payload(part) <= Payload(said) && (Ended(part) ==> part == said)
  {
    assert part <= said;
    PayloadPrefix(part, said);
    if Ended(part) {
      assert said[|part| - 1].cmd == CMD_FIN;
    }
  }

  /** Everything pending or written is a frame that can be encoded. */
  ghost predicate Encodable(s: Sender) {
    && (forall r :: r in s.posted + s.heap ==> WellFormed(r.frame))
    && AllWellFormed(s.wire)
  }

  lemma StepEncodable(s: Sys, step: Step)
    requires Encodable(s.sender) && Enabled(s, step)
    ensures Encodable(Apply(s, step).sender)
  {
    hide WellFormed, Next, Handle, DoRead, DoClose;
  }

  lemma {:induction false} RunEncodable(s: Sys, steps: seq<Step>)
    requires Encodable(s.sender)
    ensures Encodable(Run(s, steps).sender)
    decreases |steps|
  {
    if steps != [] {
      hide Encodable, Enabled, Apply;
      if Enabled(s, steps[0]) {
        StepEncodable(s, steps[0]);
      }
      RunEncodable(if Enabled(s, steps[0]) then Apply(s, steps[0]) else s, steps[1..]);
    }
  }

  /** However many bytes of the wire have arrived: they decode to exactly the frames that are
      complete in them, a stream's share of those is a prefix of what its writer said, and a
      FIN among them comes after all of it. */
  lemma CutDelivery(max: nat, steps: seq<Step>, sid: u32, ver: byte, n: nat) returns (j: nat)
    ensures AllWellFormed(Run(Start(max), steps).sender.wire)
    ensures var w := Run(Start(max), steps).sender; var bytes := EncodeStream(ver, w.wire);
            n <= |bytes| ==>
              && Arrived(ver, w.wire, n, j) && DecodeStream(ver, bytes[..n]) == w.wire[..j]
              && var got := Strand(w.wire[..j], sid);
                 if sid !in w.writers then got == []
                 else got <= w.writers[sid].said && Payload(got) <= Payload(w.writers[sid].said)
                      && (Ended(got) ==> got == w.writers[sid].said)
  {
    var w := Run(Start(max), steps).sender;
    RunEncodable(Start(max), steps);
    WireOrder(max, steps, sid);
    hide Run, Strand, Payload, EncodeStream, DecodeStream, Shape, Ended, Arrived, AllWellFormed;
    j := 0;
    if n <= |EncodeStream(ver, w.wire)| {
      j := StreamPrefix(ver, w.wire, n);
      StrandPrefix(w.wire, j, sid);
      if sid in w.writers {
        PartOfSaid(Strand(w.wire[..j], sid), Strand(w.wire, sid), w.writers[sid].said, sid);
      }
    }
  }
}
