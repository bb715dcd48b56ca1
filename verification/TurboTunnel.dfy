/** The packet connection under KCP: two bounded queues that outlive their carriers. What it
    may do to packets is drop them; it never reorders or repeats one, and alters none that
    fits the caller's buffer. */
module TurboTunnel {
  import opened Words
  import opened Wrappers

  type packet = seq<byte>

  const QUEUE_SIZE: nat := 512

  /** `a` is `b` with some packets dropped. */
  predicate Sub(a: seq<packet>, b: seq<packet>) {
    a == [] || (b != [] && if a[0] == b[0] then Sub(a[1..], b[1..]) else Sub(a, b[1..]))
  }

  lemma {:induction false} SubSkip(a: seq<packet>, b: seq<packet>)
    requires b != [] && Sub(a, b[1..])
    ensures Sub(a, b)
    decreases |b|, |a|
  {
    if a != [] && a[0] == b[0] {
      SubTail(a, b[1..]);
    }
  }

  lemma {:induction false} SubTail(a: seq<packet>, b: seq<packet>)
    requires a != [] && Sub(a, b)
    ensures Sub(a[1..], b)
    decreases |b|, |a|
  {
    if a[0] == b[0] {
      SubSkip(a[1..], b);
    } else {
      SubTail(a, b[1..]);
      SubSkip(a[1..], b);
    }
  }

  /** One more packet offered, kept or dropped. */
  lemma {:induction false} SubOffer(a: seq<packet>, b: seq<packet>, p: packet)
    requires Sub(a, b)
    ensures Sub(a + [p], b + [p]) && Sub(a, b + [p])
    decreases |b|
  {
    if b == [] {
      assert a == [];
      assert ([p] + [])[1..] == [];
    } else {
      assert (b + [p])[1..] == b[1..] + [p];
      if a == [] {
        SubOffer([], b[1..], p);
        assert [] + [p] == [p];
        SubSkip([p], b + [p]);
      } else if a[0] == b[0] {
        SubOffer(a[1..], b[1..], p);
        assert (a + [p])[1..] == a[1..] + [p];
      } else {
        SubOffer(a, b[1..], p);
      }
    }
  }

  /** A packet lost on the way. */
  lemma {:induction false} SubLose(a: seq<packet>, p: packet, c: seq<packet>, b: seq<packet>)
    requires Sub(a + [p] + c, b)
    ensures Sub(a + c, b)
    decreases |b|
  {
    var whole := a + [p] + c;
    if a == [] {
      assert whole[1..] == c && a + c == c;
      SubTail(whole, b);
    } else if whole[0] == b[0] {
      assert whole[1..] == a[1..] + [p] + c && (a + c)[1..] == a[1..] + c;
      SubLose(a[1..], p, c, b[1..]);
    } else {
      SubLose(a, p, c, b[1..]);
    }
  }

  /** Every packet that comes out went in. */
  lemma {:induction false} SubMember(a: seq<packet>, b: seq<packet>, p: packet)
    requires Sub(a, b) && p in a
    ensures p in b && |a| <= |b|
    decreases |b|
  {
    if a[0] == b[0] {
      if p != a[0] {
        SubMember(a[1..], b[1..], p);
      } else if |a| > 1 {
        SubMember(a[1..], b[1..], a[1]);
      }
    } else {
      SubMember(a, b[1..], p);
    }
  }

  class RedialPacketConn {
    var sendQueue: seq<packet>
    var recvQueue: seq<packet>
    var closed: bool
    var err: Option<string>
    /** Accepted by `send`; handed to carriers; handed over by carriers; returned by `recv`. */
    ghost var sent: seq<packet>
    ghost var carried: seq<packet>
    ghost var arrived: seq<packet>
    ghost var received: seq<packet>

    ghost predicate Valid()
      reads this
    {
      && |sendQueue| <= QUEUE_SIZE && |recvQueue| <= QUEUE_SIZE
      && (closed <==> err.Some?)
      && Sub(carried + sendQueue, sent) && Sub(received + recvQueue, arrived)
    }

    constructor ()
      ensures Valid() && !closed && sent == carried == arrived == received == []
    {
      sendQueue, recvQueue, closed, err := [], [], false, None;
      sent, carried, arrived, received := [], [], [], [];
    }

    /** The first caller closes and leaves its reason; later reasons are ignored. */
    method CloseWithError(reason: Option<string>) returns (first: bool)
      requires Valid()
      modifies this`closed, this`err
      ensures Valid() && closed && first == !old(closed)
      ensures old(closed) ==> err == old(err)
      ensures !old(closed) ==> err == if reason.Some? then reason else Some("operation on closed connection")
    {
      first := !closed;
      closed := true;
      if first {
        err := Some(if reason.Some? then reason.value else "operation on closed connection");
      }
    }

    /** An open connection takes every packet, and loses it when there is no room. */
    method Send(pkt: packet) returns (error: Option<string>)
      requires Valid()
      modifies this
      ensures Valid() && closed == old(closed) && err == old(err) && error == err
      ensures closed ==> sendQueue == old(sendQueue) && sent == old(sent)
      ensures !closed ==> sent == old(sent) + [pkt]
      ensures !closed ==> sendQueue == old(sendQueue) + if |old(sendQueue)| < QUEUE_SIZE then [pkt] else []
      ensures carried == old(carried) && arrived == old(arrived) && received == old(received)
      ensures recvQueue == old(recvQueue)
    {
      if closed {
        return err;
      }
      SubOffer(carried + sendQueue, sent, pkt);
      sent := sent + [pkt];
      if |sendQueue| < QUEUE_SIZE {
        assert carried + (sendQueue + [pkt]) == carried + sendQueue + [pkt];
        sendQueue := sendQueue + [pkt];
      }
      return None;
    }

    /** One packet, cut to the buffer; `None` where the source waits. */
    method Recv(buf: array<byte>) returns (r: Option<Result<nat, string>>)
      requires Valid()
      modifies this, buf
      ensures Valid() && closed == old(closed) && err == old(err)
      ensures closed ==> r == Some(Err(err.value)) && received == old(received)
      ensures !closed && old(recvQueue) == [] ==> r == None && received == old(received)
      ensures !closed && old(recvQueue) != [] ==>
                var p := old(recvQueue)[0];
                && r == Some(Ok(Min(|p|, buf.Length))) && received == old(received) + [p]
                && recvQueue == old(recvQueue)[1..]
                && buf[..] == p[..Min(|p|, buf.Length)] + old(buf[Min(|p|, buf.Length)..])
      ensures sent == old(sent) && carried == old(carried) && arrived == old(arrived)
    {
      if closed {
        return Some(Err(err.value));
      }
      if recvQueue == [] {
        return None;
      }
      var p := recvQueue[0];
      assert received + recvQueue == received + [p] + recvQueue[1..];
      recvQueue := recvQueue[1..];
      received := received + [p];
      var n := Min(|p|, buf.Length);
      forall i | 0 <= i < n {
        buf[i] := p[i];
      }
      return Some(Ok(n));
    }

    /** The reader half of `exchange`: a carrier's packet is queued, or dropped when the queue
        is full. */
    method Arrive(p: packet)
      requires Valid()
      modifies this`recvQueue, this`arrived
      ensures Valid() && arrived == old(arrived) + [p]
      ensures recvQueue == old(recvQueue) + if |old(recvQueue)| < QUEUE_SIZE then [p] else []
    {
      SubOffer(received + recvQueue, arrived, p);
      arrived := arrived + [p];
      if |recvQueue| < QUEUE_SIZE {
        assert received + (recvQueue + [p]) == received + recvQueue + [p];
        recvQueue := recvQueue + [p];
      }
    }

    /** The writer half: the packet in hand is lost when the carrier fails. */
    method Pump(carrierFails: bool) returns (going: bool)
      requires Valid() && sendQueue != []
      modifies this`sendQueue, this`carried
      ensures Valid() && going == !carrierFails && sendQueue == old(sendQueue)[1..]
      ensures carried == old(carried) + if carrierFails then [] else [old(sendQueue)[0]]
    {
      var p := sendQueue[0];
      assert carried + sendQueue == carried + [p] + sendQueue[1..];
      SubLose(carried, p, sendQueue[1..], sent);
      sendQueue := sendQueue[1..];
      if carrierFails {
        return false;
      }
      carried := carried + [p];
      return true;
    }
  }
}
