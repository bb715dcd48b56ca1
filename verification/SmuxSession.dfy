/** The receiving half of a smux session as the source has it, updated in place: the receive
    loop's dispatch, `read` with its window update and its two ends of stream, and closing.
    Each operation is the atomic steps of SmuxSystem and SmuxCredit it is made of. */
module SmuxSession {
  import opened Words
  import opened Wrappers
  import opened SmuxFrames
  import opened SmuxSystem
  import C = SmuxCredit

  function Settled(a: Acceptor): Acceptor {
    a.(bucket := AsI32(a.bucket - a.debt), debt := 0)
  }

  function Returned(a: Acceptor, n: nat): Acceptor
    requires n <= a.credit
  {
    a.(bucket := AsI32(a.bucket + n), credit := a.credit - n)
  }

  ghost predicate NoneEmpty(buffers: seq<seq<byte>>) {
    forall b :: b in buffers ==> b != []
  }

  type marks = map<u32, (u32, u32)>

  /** Every stream a reader may hold has a read count, and holds nothing once unregistered. */
  ghost predicate Orderly(streams: map<u32, Inbox>, gone: map<u32, Inbox>, readStates: marks) {
    && (forall sid :: sid in readStates <==> sid in streams || sid in gone)
    && (forall sid :: sid in streams ==> NoneEmpty(streams[sid].buffers))
    && (forall sid :: sid in gone ==> gone[sid].buffers == [])
  }

  lemma OrderlyOpens(streams: map<u32, Inbox>, gone: map<u32, Inbox>, readStates: marks, sid: u32, box: Inbox,
                     mark: (u32, u32))
    requires Orderly(streams, gone, readStates) && NoneEmpty(box.buffers)
    ensures Orderly(streams[sid := box], gone, readStates[sid := mark])
    ensures sid in readStates ==> Orderly(streams[sid := box], gone, readStates)
                                  && Orderly(streams, gone, readStates[sid := mark])
  {
  }

  lemma OrderlyGone(streams: map<u32, Inbox>, gone: map<u32, Inbox>, readStates: marks, sid: u32, box: Inbox)
    requires Orderly(streams, gone, readStates) && sid in readStates && box.buffers == []
    ensures sid in gone ==> Orderly(streams, gone[sid := box], readStates)
    ensures Orderly(streams - {sid}, gone[sid := box], readStates)
  {
  }

  lemma OrderlyAt(streams: map<u32, Inbox>, gone: map<u32, Inbox>, readStates: marks, sid: u32)
    requires Orderly(streams, gone, readStates)
    ensures sid in readStates <==> sid in streams || sid in gone
    ensures sid in streams ==> NoneEmpty(streams[sid].buffers)
    ensures sid in gone ==> gone[sid].buffers == []
  {
  }

  lemma TakenNoneEmpty(box: Inbox, capacity: nat)
    requires NoneEmpty(box.buffers)
    ensures NoneEmpty(AfterTake(box, capacity).buffers)
  {
    if box.buffers != [] {
      var n, front := Take(box, capacity), box.buffers[0];
      assert forall b :: b in box.buffers[1..] ==> b in box.buffers;
      assert n < |front| ==> |front[n..]| > 0;
    }
  }

  datatype Tried = Data(n: nat) | WouldBlock | Eof

  class Session {
    const version: byte
    const maxStreamBuffer: C.stream32
    var bucket: i32
    var streams: map<u32, Inbox>
    var readStates: marks
    /** Streams given to `accept_stream`, and each stream's `peer_consumed` and `peer_window`. */
    var accepts: seq<u32>
    var peer: marks
    /** Unregistered streams that a reader may still hold. */
    var gone: map<u32, Inbox>
    ghost var taken: seq<Frame>

    ghost function State(): Acceptor
      reads this
    {
      Acceptor(taken, bucket > 0, bucket, 0, 0, streams, gone)
    }

    ghost predicate Valid()
      reads this
    {
      Orderly(streams, gone, readStates)
    }

    constructor (version: byte, max: nat, maxStreamBuffer: C.stream32)
      ensures Valid() && State() == Start(max).acceptor.(ready := AsI32(max) > 0)
      ensures readStates == map[] && accepts == [] && peer == map[]
      ensures this.version == version && this.maxStreamBuffer == maxStreamBuffer
    {
      this.version, this.maxStreamBuffer := version, maxStreamBuffer;
      bucket, streams, readStates, taken, gone := AsI32(max), map[], map[], [], map[];
      accepts, peer := [], map[];
    }

    /** A received frame: streams, what readers and acceptors are given, and what the peer
        says it has consumed. A data frame is charged once it is buffered. */
    method HandleFrame(f: Frame)
      requires Valid() && (WellFormed(f) || (f.cmd == CMD_PSH && f.data == []))
      modifies this
      ensures Valid()
      ensures State() == Settled(Handle(old(State()), f)).(ready := bucket > 0)
      ensures if f.sid in old(streams) then
                var box := old(streams)[f.sid];
                streams == old(streams)[f.sid :=
                  if f.cmd == CMD_FIN then box.(fin := true)
                  else if f.cmd == CMD_PSH && f.data != [] then box.(buffers := box.buffers + [f.data]) else box]
              else streams == if f.cmd == CMD_SYN then old(streams)[f.sid := EMPTY] else old(streams)
      ensures bucket == AsI32(old(bucket) - if f.cmd == CMD_PSH && f.sid in old(streams) then |f.data| else 0)
      ensures var opens := f.cmd == CMD_SYN && f.sid !in old(streams);
              && accepts == old(accepts) + (if opens then [f.sid] else [])
              && readStates == (if opens then old(readStates)[f.sid := (0, 0)] else old(readStates))
              && peer == if opens then old(peer)[f.sid := (0, INITIAL_PEER_WINDOW)]
                         else if f.cmd == CMD_UPD && f.sid in old(streams)
                         then old(peer)[f.sid := (FromLe32(f.data[..4]), FromLe32(f.data[4..]))]
                         else old(peer)
    {
      hide Wrap, FromLe32, Orderly;
      OrderlyAt(streams, gone, readStates, f.sid);
      taken := taken + [f];
      if f.cmd == CMD_SYN {
        if f.sid !in streams {
          OrderlyOpens(streams, gone, readStates, f.sid, EMPTY, (0, 0));
          streams := streams[f.sid := EMPTY];
          readStates := readStates[f.sid := (0, 0)];
          peer := peer[f.sid := (0, INITIAL_PEER_WINDOW)];
          accepts := accepts + [f.sid];
        }
      } else if f.cmd == CMD_FIN {
        if f.sid in streams {
          OrderlyOpens(streams, gone, readStates, f.sid, streams[f.sid].(fin := true), (0, 0));
          streams := streams[f.sid := streams[f.sid].(fin := true)];
        }
      } else if f.cmd == CMD_PSH {
        if |f.data| > 0 && f.sid in streams {
          var box := streams[f.sid];
          OrderlyOpens(streams, gone, readStates, f.sid, box.(buffers := box.buffers + [f.data]), (0, 0));
          streams := streams[f.sid := box.(buffers := box.buffers + [f.data])];
          bucket := AsI32(bucket - |f.data|);
        }
      } else if f.cmd == CMD_UPD {
        if f.sid in streams {
          peer := peer[f.sid := (FromLe32(f.data[..4]), FromLe32(f.data[4..]))];
        }
      }
      SmallBucket(old(bucket));
    }

    static lemma SmallBucket(x: i32)
      ensures AsI32(x) == x && AsI32(x - 0) == x
    {
      AsI32Small(x);
    }

    /** Counts `n` bytes as read; the count to announce, if an update is due. */
    method Account(sid: u32, n: nat) returns (consumed: Option<u32>)
      requires Valid() && sid in readStates
      modifies this`readStates
      ensures Valid()
      ensures var (numRead, incr) := old(readStates)[sid];
              var s := C.New(maxStreamBuffer).(numRead := numRead, incr := incr);
              && readStates == old(readStates)[sid := (C.DoRead(s, n).numRead, C.DoRead(s, n).incr)]
              && consumed == if C.DoRead(s, n).updates == [] then None else Some(C.DoRead(s, n).updates[0])
    {
      hide Orderly;
      var (numRead, incr) := readStates[sid];
      numRead, incr := Wrap(numRead + n), Wrap(incr + n);
      consumed := None;
      if incr >= maxStreamBuffer / 2 || numRead == n {
        consumed := if n > 0 && numRead > 0 then Some(numRead) else None;
        incr := 0;
      }
      OrderlyOpens(streams, gone, readStates, sid, EMPTY, (numRead, incr));
      readStates := readStates[sid := (numRead, incr)];
    }

    /** What a reader's handle on a stream shows, registered or not. */
    function Box(sid: u32): (box: Inbox)
      requires sid in streams || sid in gone
      reads this
      ensures box == BoxOf(State(), sid)
    {
      if sid in streams then streams[sid] else gone[sid]
    }

    method Put(sid: u32, box: Inbox)
      requires Valid() && (sid in streams || sid in gone) && box.buffers == Box(sid).buffers
      modifies this`streams, this`gone
      ensures Valid() && State() == WithBox(old(State()), sid, box)
    {
      hide Orderly;
      OrderlyAt(streams, gone, readStates, sid);
      OrderlyOpens(streams, gone, readStates, sid, if sid in streams then box else EMPTY, (0, 0));
      OrderlyGone(streams, gone, readStates, sid, if sid in streams then EMPTY else box);
      if sid in streams {
        streams := streams[sid := box];
      } else {
        gone := gone[sid := box];
      }
    }

    /** One attempt to read through a stream's handle, which may outlive its registration: the
        first buffer and the window update, then the tokens, or else whether it is shut. */
    method TryRead(sid: u32, buf: array<byte>) returns (r: Tried, consumed: Option<u32>)
      requires Valid() && (sid in streams || sid in gone) && buf.Length > 0
      modifies this`streams, this`gone, this`readStates, this`bucket, buf
      ensures Valid()
      ensures var was, box := old(State()), old(Box(sid));
              if box.buffers != [] then
                var n := Min(|box.buffers[0]|, buf.Length);
                && r == Data(n) && 0 < n <= buf.Length
                && buf[..n] == box.buffers[0][..n] && buf[n..] == old(buf[..])[n..]
                && State() == Returned(DoRead(was, sid, buf.Length), n).(ready := bucket > 0)
              else
                && r == (if box.shut then Eof else WouldBlock) && buf[..] == old(buf[..])
                && State() == if box.shut then DoEnd(DoMiss(was, sid), sid) else DoMiss(was, sid)
      ensures Counted(old(readStates), sid, if r.Data? then r.n else 0, consumed)
    {
      hide C.DoRead, C.New, Wrap, Orderly;
      SmallBucket(bucket);
      OrderlyAt(streams, gone, readStates, sid);
      var box := Box(sid);
      var n := 0;
      consumed := None;
      if box.buffers != [] {
        assert box.buffers[0] in box.buffers;
        n := TakeFront(sid, buf);
      } else {
        Put(sid, box.(missed := true));
      }
      if version == 2 {
        consumed := Account(sid, n);
      }
      if n > 0 {
        bucket := AsI32(bucket + n);
        return Data(n), consumed;
      }
      if box.shut {
        Put(sid, box.(missed := false, ends := box.ends + [true]));
        return Eof, consumed;
      }
      return WouldBlock, consumed;
    }

    /** Version 2 counts what was read and announces it when an update is due. */
    ghost predicate Counted(before: marks, sid: u32, n: nat, consumed: Option<u32>)
      requires sid in before
      reads this
    {
      if version != 2 then consumed == None && readStates == before
      else
        var (numRead, incr) := before[sid];
        var s := C.DoRead(C.New(maxStreamBuffer).(numRead := numRead, incr := incr), n);
        && readStates == before[sid := (s.numRead, s.incr)]
        && consumed == if s.updates == [] then None else Some(s.updates[0])
    }

    /** One turn of `read`'s loop; `None` where it waits. Zero bytes into a buffer with room
        mean an end of stream: the stream is shut, or FIN has come and nothing is buffered. */
    method Read(sid: u32, buf: array<byte>) returns (r: Option<nat>, consumed: Option<u32>)
      requires Valid() && (sid in streams || sid in gone)
      modifies this`streams, this`gone, this`readStates, this`bucket, buf
      ensures Valid()
      ensures buf.Length == 0 ==> r == Some(0) && State() == old(State()) && readStates == old(readStates)
      ensures buf.Length > 0 ==>
                var was, box := old(State()), old(Box(sid));
                if box.buffers != [] then
                  var n := Min(|box.buffers[0]|, buf.Length);
                  && r == Some(n) && 0 < n <= buf.Length
                  && buf[..n] == box.buffers[0][..n] && buf[n..] == old(buf[..])[n..]
                  && State() == Returned(DoRead(was, sid, buf.Length), n).(ready := bucket > 0)
                else
                  && r == (if box.shut || box.fin then Some(0) else None) && buf[..] == old(buf[..])
                  && State() == if box.shut || box.fin then DoEnd(DoMiss(was, sid), sid) else DoMiss(was, sid)
      ensures buf.Length > 0 && old(Box(sid)).buffers == [] ==>
                (r == Some(0) <==> AtEnd(BoxOf(DoMiss(old(State()), sid), sid)))
      ensures buf.Length > 0 ==>
                var buffers := old(Box(sid)).buffers;
                Counted(old(readStates), sid, if buffers != [] then Min(|buffers[0]|, buf.Length) else 0, consumed)
    {
      consumed := None;
      if buf.Length == 0 {
        return Some(0), None;
      }
      var outcome;
      outcome, consumed := TryRead(sid, buf);
      match outcome
      case Data(n) => return Some(n), consumed;
      case Eof => return Some(0), consumed;
      case WouldBlock =>
        var box := Box(sid);
        if box.fin && box.buffers == [] {
          Put(sid, box.(missed := false, ends := box.ends + [false]));
          return Some(0), consumed;
        }
        return None, consumed;
    }

    /** The first thing `close` does; only the first close goes on. */
    method Shut(sid: u32) returns (first: bool)
      requires Valid() && (sid in streams || sid in gone)
      modifies this`streams, this`gone
      ensures Valid() && State() == DoShut(old(State()), sid) && first == !old(Box(sid)).shut
    {
      var box := Box(sid);
      Put(sid, box.(shut := true));
      return !box.shut;
    }

    /** Moves what fits out of the first buffer. */
    method TakeFront(sid: u32, buf: array<byte>) returns (n: nat)
      requires Valid() && sid in streams
      modifies this`streams, buf
      ensures Valid()
      ensures var box := old(streams)[sid];
              && n == Take(box, buf.Length) <= buf.Length
              && buf[..n] == (if box.buffers == [] then [] else box.buffers[0][..n])
              && buf[n..] == old(buf[..])[n..]
              && streams == old(streams)[sid := AfterTake(box, buf.Length)]
    {
      hide Orderly;
      OrderlyAt(streams, gone, readStates, sid);
      n := 0;
      var box := streams[sid];
      TakenNoneEmpty(box, buf.Length);
      OrderlyOpens(streams, gone, readStates, sid, AfterTake(box, buf.Length), (0, 0));
      if box.buffers != [] {
        var front := box.buffers[0];
        n := Min(|front|, buf.Length);
        forall i | 0 <= i < n {
          buf[i] := front[i];
        }
        var rest := if n == |front| then box.buffers[1..] else [front[n..]] + box.buffers[1..];
        streams := streams[sid := box.(read := box.read + front[..n], missed := false, buffers := rest)];
      }
      assert box.buffers == [] ==> old(streams)[sid := box] == old(streams);
    }

    /** Unregisters a stream and returns the tokens of what was never read. */
    method StreamClosed(sid: u32)
      requires Valid()
      modifies this`streams, this`bucket, this`gone
      ensures Valid()
      ensures State() == (if sid in old(streams)
                          then Returned(DoClose(old(State()), sid), Length(old(streams)[sid].buffers))
                          else old(State())).(ready := bucket > 0)
    {
      hide Orderly, Wrap;
      SmallBucket(bucket);
      OrderlyAt(streams, gone, readStates, sid);
      if sid in streams {
        var box := streams[sid];
        OrderlyGone(streams, gone, readStates, sid, box.(buffers := []));
        streams := streams - {sid};
        gone := gone[sid := box.(buffers := [])];
        var n := TotalLength(box.buffers);
        if n > 0 {
          bucket := AsI32(bucket + n);
        }
      }
    }

    static method TotalLength(buffers: seq<seq<byte>>) returns (n: nat)
      ensures n == Length(buffers)
    {
      n := 0;
      for i := 0 to |buffers|
        invariant n + Length(buffers[i..]) == Length(buffers)
      {
        assert buffers[i..][1..] == buffers[i + 1..];
        n := n + |buffers[i]|;
      }
    }
  }
}
