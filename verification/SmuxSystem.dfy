/** Two smux sessions in the opener-to-acceptor direction, as atomic steps of their tasks:
    stream writers, the send loop, the receive loop, stream readers and closers. */
module SmuxSystem {
  import opened Words
  import opened SmuxFrames

  /** A stream's writing task. `said`: its SYN, PSH and FIN frames in program order.
      `busy`: it awaits the outcome of the last of them. */
  datatype Writer = Writer(said: seq<Frame>, busy: bool)

  /** `posted`: numbered requests not yet in the heap. `tickets`: how many were numbered. */
  datatype Sender = Sender(
    tickets: nat, posted: set<Request>, heap: set<Request>, wire: seq<Frame>,
    writers: map<u32, Writer>, dead: bool)

  /** The acceptor's side of a stream. `shut`: its own side has begun to close it. `read`:
      what its reader took. `missed`: the reader has just found the buffers empty. `ends`:
      for each end-of-stream the reader was told of, whether the stream was shut by then. */
  datatype Inbox = Inbox(
    buffers: seq<seq<byte>>, fin: bool, shut: bool, read: seq<byte>, missed: bool, ends: seq<bool>)

  /** `taken`: frames received. `ready`: the receive loop has seen a positive bucket.
      `debt`: data buffered but not yet charged; `credit`: data taken out of the buffers
      whose tokens have not come back yet. `gone`: streams the acceptor has unregistered,
      which their readers may still hold. */
  datatype Acceptor = Acceptor(
    taken: seq<Frame>, ready: bool, bucket: i32, debt: nat, credit: nat,
    streams: map<u32, Inbox>, gone: map<u32, Inbox>)

  /** The bucket is an `AtomicI32`: `max_receive_buffer as i32` at first, then wrapping. */
  type i32 = x: int | -TWO31 <= x < TWO31

  datatype Sys = Sys(max: nat, sender: Sender, acceptor: Acceptor)

  datatype Step =
    | Submit(sid: u32, frame: Frame)
    | SubmitOther(frame: Frame)
    | Enqueue(request: Request)
    | WriteNext(request: Request)
    | Die
    | Check
    | Receive
    | Settle
    | Read(sid: u32, capacity: nat)
    | Return(tokens: nat)
    | Shut(sid: u32)
    | Close(sid: u32)
    | Miss(sid: u32)
    | End(sid: u32)

  // ---- Writing ----

  predicate InStrand(f: Frame) {
    f.cmd == CMD_SYN || f.cmd == CMD_PSH || f.cmd == CMD_FIN
  }

  /** What a task may say next: SYN for a new stream, then data, then FIN and no more. */
  predicate MaySay(s: Sender, sid: u32, f: Frame) {
    && f.sid == sid && WellFormed(f)
    && if sid !in s.writers then f.cmd == CMD_SYN
       else !s.writers[sid].busy && s.writers[sid].said != []
            && s.writers[sid].said[|s.writers[sid].said| - 1].cmd != CMD_FIN
            && (f.cmd == CMD_PSH || f.cmd == CMD_FIN)
  }

  function Number(s: Sender, ctrl: bool, f: Frame): Request {
    Request(ctrl, s.tickets + 1, f)
  }

  function DoSubmit(s: Sender, sid: u32, f: Frame): Sender {
    var said := if sid in s.writers then s.writers[sid].said else [];
    s.(tickets := s.tickets + 1, posted := s.posted + {Number(s, f.cmd == CMD_SYN, f)},
       writers := s.writers[sid := Writer(said + [f], true)])
  }

  /** The frame is on the wire and its task is told so. */
  function DoWrite(s: Sender, r: Request): Sender {
    var sid := r.frame.sid;
    s.(heap := s.heap - {r}, wire := s.wire + [r.frame],
       writers := if InStrand(r.frame) && sid in s.writers
                  then s.writers[sid := s.writers[sid].(busy := false)] else s.writers)
  }

  // ---- Receiving ----

  function Length(buffers: seq<seq<byte>>): nat {
    if buffers == [] then 0 else |buffers[0]| + Length(buffers[1..])
  }

  const EMPTY: Inbox := Inbox([], false, false, [], false, [])

  /** One frame in the receive loop; PSH leaves its length to be charged by `Settle`. */
  function Handle(a: Acceptor, f: Frame): Acceptor {
    var a1 := a.(taken := a.taken + [f], ready := false);
    if f.cmd == CMD_SYN then
      if f.sid in a.streams then a1 else a1.(streams := a.streams[f.sid := EMPTY])
    else if f.sid !in a.streams then a1
    else
      var box := a.streams[f.sid];
      if f.cmd == CMD_FIN then a1.(streams := a.streams[f.sid := box.(fin := true)])
      else if f.cmd == CMD_PSH && f.data != [] then
        a1.(streams := a.streams[f.sid := box.(buffers := box.buffers + [f.data])], debt := |f.data|)
      else a1
  }

  /** `try_read`: up to `capacity` bytes of the first buffer, which goes when empty. */
  function Take(box: Inbox, capacity: nat): (n: nat)
    ensures box.buffers == [] ==> n == 0
    ensures box.buffers != [] ==> n <= |box.buffers[0]|
  {
    if box.buffers == [] then 0 else Min(|box.buffers[0]|, capacity)
  }

  function AfterTake(box: Inbox, capacity: nat): Inbox {
    if box.buffers == [] then box
    else
      var n := Take(box, capacity);
      var front := box.buffers[0];
      box.(read := box.read + front[..n], missed := false,
           buffers := if n == |front| then box.buffers[1..] else [front[n..]] + box.buffers[1..])
  }

  function DoRead(a: Acceptor, sid: u32, capacity: nat): Acceptor {
    if sid in a.streams then
      a.(streams := a.streams[sid := AfterTake(a.streams[sid], capacity)],
         credit := a.credit + Take(a.streams[sid], capacity))
    else a
  }

  /** Streams that are registered or that a reader still holds. */
  predicate Known(a: Acceptor, sid: u32) {
    sid in a.streams || sid in a.gone
  }

  function BoxOf(a: Acceptor, sid: u32): Inbox
    requires Known(a, sid)
  {
    if sid in a.streams then a.streams[sid] else a.gone[sid]
  }

  function WithBox(a: Acceptor, sid: u32, box: Inbox): Acceptor {
    if sid in a.streams then a.(streams := a.streams[sid := box]) else a.(gone := a.gone[sid := box])
  }

  /** `close` sets `die` before anything else. */
  function DoShut(a: Acceptor, sid: u32): Acceptor {
    if Known(a, sid) then WithBox(a, sid, BoxOf(a, sid).(shut := true)) else a
  }

  /** The first half of a `try_read` that returns no data. */
  function DoMiss(a: Acceptor, sid: u32): Acceptor
    requires Known(a, sid)
  {
    WithBox(a, sid, BoxOf(a, sid).(missed := true))
  }

  /** What makes `read` return `Ok(0)` after such a miss: `die`, or `fin` with nothing buffered. */
  predicate AtEnd(box: Inbox) {
    box.missed && (box.shut || (box.fin && box.buffers == []))
  }

  function DoEnd(a: Acceptor, sid: u32): Acceptor
    requires Known(a, sid)
  {
    var box := BoxOf(a, sid);
    WithBox(a, sid, box.(missed := false, ends := box.ends + [box.shut]))
  }

  /** `stream_closed`: unregister, and send the tokens of what was never read on their way. */
  function DoClose(a: Acceptor, sid: u32): Acceptor {
    if sid in a.streams then
      var box := a.streams[sid];
      a.(streams := a.streams - {sid}, gone := a.gone[sid := box.(buffers := [])],
         credit := a.credit + Length(box.buffers))
    else a
  }

  ghost predicate Enabled(s: Sys, step: Step) {
    match step
    case Submit(sid, f) => !s.sender.dead && MaySay(s.sender, sid, f)
    case SubmitOther(f) => !s.sender.dead && WellFormed(f) && !InStrand(f)
    case Enqueue(r) => r in s.sender.posted
    case WriteNext(r) => Yields(s.sender.heap, r)
    case Die => true
    case Check => s.acceptor.bucket > 0 && s.acceptor.debt == 0
    case Receive => s.acceptor.ready && |s.acceptor.taken| < |s.sender.wire|
    case Settle => true
    case Read(sid, capacity) => true
    case Return(n) => n <= s.acceptor.credit
    case Shut(sid) => true
    case Close(sid) => sid in s.acceptor.streams && s.acceptor.streams[sid].shut
    case Miss(sid) => Known(s.acceptor, sid) && BoxOf(s.acceptor, sid).buffers == []
    case End(sid) => Known(s.acceptor, sid) && AtEnd(BoxOf(s.acceptor, sid))
  }

  ghost function Apply(s: Sys, step: Step): Sys
    requires Enabled(s, step)
  {
    var w, a := s.sender, s.acceptor;
    match step
    case Submit(sid, f) => s.(sender := DoSubmit(w, sid, f))
    case SubmitOther(f) =>
      s.(sender := w.(tickets := w.tickets + 1, posted := w.posted + {Number(w, true, f)}))
    case Enqueue(r) => s.(sender := w.(posted := w.posted - {r}, heap := w.heap + {r}))
    case WriteNext(r) => s.(sender := DoWrite(w, r))
    case Die => s.(sender := w.(dead := true))
    case Check => s.(acceptor := a.(ready := true))
    case Receive => s.(acceptor := Handle(a, w.wire[|a.taken|]))
    case Settle => s.(acceptor := a.(bucket := AsI32(a.bucket - a.debt), debt := 0))
    case Read(sid, capacity) => s.(acceptor := DoRead(a, sid, capacity))
    case Return(n) => s.(acceptor := a.(bucket := AsI32(a.bucket + n), credit := a.credit - n))
    case Shut(sid) => s.(acceptor := DoShut(a, sid))
    case Close(sid) => s.(acceptor := DoClose(a, sid))
    case Miss(sid) => s.(acceptor := DoMiss(a, sid))
    case End(sid) => s.(acceptor := DoEnd(a, sid))
  }

  function Start(max: nat): Sys {
    Sys(max, Sender(0, {}, {}, [], map[], false), Acceptor([], false, AsI32(max), 0, 0, map[], map[]))
  }

  /** A step that is not enabled does nothing. */
  ghost function Run(s: Sys, steps: seq<Step>): Sys
    decreases |steps|
  {
    if steps == [] then s
    else Run(if Enabled(s, steps[0]) then Apply(s, steps[0]) else s, steps[1..])
  }

  // ---- Building a run ----

  lemma RunStart(max: nat)
    ensures Run(Start(max), []) == Start(max)
  {
  }

  lemma {:induction false} RunOn(s: Sys, steps: seq<Step>, step: Step)
    requires Enabled(Run(s, steps), step)
    ensures Run(s, steps + [step]) == Apply(Run(s, steps), step)
    decreases |steps|
  {
    if steps == [] {
      assert steps + [step] == [step];
    } else {
      assert (steps + [step])[1..] == steps[1..] + [step];
      RunOn(if Enabled(s, steps[0]) then Apply(s, steps[0]) else s, steps[1..], step);
    }
  }

  /** One more step of a run that has come to `s`. */
  lemma Go(max: nat, steps: seq<Step>, s: Sys, step: Step) returns (steps': seq<Step>, s': Sys)
    requires s == Run(Start(max), steps) && Enabled(s, step)
    ensures s' == Run(Start(max), steps') == Apply(s, step)
  {
    hide Enabled, Apply;
    RunOn(Start(max), steps, step);
    steps', s' := steps + [step], Apply(s, step);
  }

  /** From submission to the wire, with nothing else pending. */
  lemma Transmit(max: nat, steps0: seq<Step>, s0: Sys, f: Frame) returns (steps: seq<Step>, s: Sys)
    requires s0 == Run(Start(max), steps0) && !s0.sender.dead && MaySay(s0.sender, f.sid, f) && InStrand(f)
    requires s0.sender.posted == s0.sender.heap == {}
    ensures s == Run(Start(max), steps) && s.acceptor == s0.acceptor && s.sender.wire == s0.sender.wire + [f]
    ensures s.sender.posted == s.sender.heap == {} && !s.sender.dead && f.sid in s.sender.writers
    ensures var said := if f.sid in s0.sender.writers then s0.sender.writers[f.sid].said else [];
            s.sender.writers[f.sid] == Writer(said + [f], false)
  {
    hide Run, MaySay;
    var r := Number(s0.sender, f.cmd == CMD_SYN, f);
    steps, s := Go(max, steps0, s0, Submit(f.sid, f));
    assert s.sender.posted == {r};
    steps, s := Go(max, steps, s, Enqueue(r));
    assert s.sender.heap == {r} && s.sender.posted == {};
    WrapSmall(0);
    assert !Before(r, r);
    steps, s := Go(max, steps, s, WriteNext(r));
    assert s.sender.heap == {};
  }

  /** The receive loop takes the next frame of the wire. */
  lemma Receiving(max: nat, steps0: seq<Step>, s0: Sys) returns (steps: seq<Step>, s: Sys)
    requires s0 == Run(Start(max), steps0) && s0.acceptor.bucket > 0 && s0.acceptor.debt == 0
    requires |s0.acceptor.taken| < |s0.sender.wire|
    ensures s == Run(Start(max), steps) && s.sender == s0.sender
    ensures s.acceptor == Handle(s0.acceptor.(ready := true), s0.sender.wire[|s0.acceptor.taken|])
  {
    hide Run, Handle;
    steps, s := Go(max, steps0, s0, Check);
    steps, s := Go(max, steps, s, Receive);
  }
}
