/** smux frames on the reliable byte stream, and the order in which the send loop takes
    pending write requests from its heap. */
module SmuxFrames {
  import opened Words

  const CMD_SYN: byte := 0
  const CMD_FIN: byte := 1
  const CMD_PSH: byte := 2
  const CMD_NOP: byte := 3
  const CMD_UPD: byte := 4
  const HEADER_SIZE: nat := 8
  const UPD_SIZE: nat := 8
  const INITIAL_PEER_WINDOW: u32 := 262144

  datatype Frame = Frame(cmd: byte, sid: u32, data: seq<byte>)

  /** The frames a session writes: data only in PSH, two words in UPD. */
  predicate WellFormed(f: Frame) {
    || (f.cmd == CMD_PSH && 0 < |f.data| <= 65535)
    || (f.cmd == CMD_UPD && |f.data| == UPD_SIZE)
    || ((f.cmd == CMD_SYN || f.cmd == CMD_FIN || f.cmd == CMD_NOP) && f.data == [])
  }

  function Encode(ver: byte, f: Frame): seq<byte>
    requires WellFormed(f)
  {
    [ver, f.cmd] + Le16(|f.data|) + Le32(f.sid) + f.data
  }

  /** Version, command, length and stream id with their low bytes first, then the data. */
  lemma FrameLayout(ver: byte, f: Frame)
    requires WellFormed(f)
    ensures var b := Encode(ver, f);
            && |b| == 8 + |f.data| && b[0] == ver && b[1] == f.cmd && b[2] as int + 0x100 * b[3] as int == |f.data|
            && b[4] + 0x100 * (b[5] + 0x100 * (b[6] + 0x100 * b[7] as int)) == f.sid && b[8..] == f.data
  {
    var x := f.sid;
    assert x == x % 256 + 256 * (x / 0x100);
    assert x / 0x100 == x / 0x100 % 256 + 256 * (x / 0x1_0000);
    assert x / 0x1_0000 == x / 0x1_0000 % 256 + 256 * (x / 0x100_0000);
  }

  /** The frame by which a version 2 reader tells what it has consumed, and its window. */
  function WindowUpdate(sid: u32, consumed: u32, window: u32): Frame {
    Frame(CMD_UPD, sid, Le32(consumed) + Le32(window))
  }

  /** The two words `HandleFrame` takes out of it are the two that went in. */
  lemma UpdateHeard(sid: u32, consumed: u32, window: u32)
    ensures var f := WindowUpdate(sid, consumed, window);
            WellFormed(f) && FromLe32(f.data[..4]) == consumed && FromLe32(f.data[4..]) == window
  {
    Le32RoundTrip(consumed);
    Le32RoundTrip(window);
    var data := WindowUpdate(sid, consumed, window).data;
    assert data[..4] == Le32(consumed) && data[4..] == Le32(window);
  }

  /** What the receive loop makes of the front of the stream. */
  datatype Parsed =
    | Got(frame: Frame, rest: seq<byte>)
    | More
    | Refused

  function Decode(ver: byte, s: seq<byte>): Parsed {
    if |s| < HEADER_SIZE then More
    else if s[0] != ver then Refused
    else
      var cmd, length, sid, body := s[1], FromLe16(s[2..4]), FromLe32(s[4..8]), s[8..];
      if cmd == CMD_NOP || cmd == CMD_SYN || cmd == CMD_FIN then Got(Frame(cmd, sid, []), body)
      else if cmd == CMD_PSH then
        if |body| < length then More else Got(Frame(cmd, sid, body[..length]), body[length..])
      else if cmd == CMD_UPD then
        if |body| < UPD_SIZE then More else Got(Frame(cmd, sid, body[..UPD_SIZE]), body[UPD_SIZE..])
      else Refused
  }

  /** Whatever follows, the receive loop takes out exactly the frame that was written. */
  lemma DecodeEncode(ver: byte, f: Frame, rest: seq<byte>)
    requires WellFormed(f)
    ensures Decode(ver, Encode(ver, f) + rest) == Got(f, rest)
  {
    var s := Encode(ver, f) + rest;
    Le16RoundTrip(|f.data|);
    Le32RoundTrip(f.sid);
    assert s[2..4] == Le16(|f.data|) && s[4..8] == Le32(f.sid);
    assert s[8..] == f.data + rest;
    assert s[8..][..|f.data|] == f.data && s[8..][|f.data|..] == rest;
  }

  /** What is made of any bytes at all: another version or an unknown command is refused once
      the header is there; PSH has as much data as its header says, UPD two words, and the
      others none, whatever their header says. */
  lemma DecodeAnswers(ver: byte, head: seq<byte>, rest: seq<byte>)
    requires |head| == HEADER_SIZE
    ensures var cmd, n := head[1], FromLe16(head[2..4]);
            var size := if cmd == CMD_PSH then n else if cmd == CMD_UPD then UPD_SIZE else 0;
            Decode(ver, head + rest)
              == if head[0] != ver || cmd > CMD_UPD then Refused
                 else if |rest| < size then More
                 else Got(Frame(cmd, FromLe32(head[4..]), rest[..size]), rest[size..])
  {
    hide FromLe16, FromLe32;
    HeadAnd(head, rest);
  }

  lemma HeadAnd(head: seq<byte>, rest: seq<byte>)
    requires |head| == HEADER_SIZE
    ensures var s := head + rest; s[2..4] == head[2..4] && s[4..8] == head[4..] && s[8..] == rest
    ensures rest[..0] == [] && rest[0..] == rest
  {
  }

  /** No frame is reported before its last byte has arrived. */
  lemma DecodePrefix(ver: byte, f: Frame, n: nat)
    requires WellFormed(f) && n < |Encode(ver, f)|
    ensures Decode(ver, Encode(ver, f)[..n]) == More
  {
    var s := Encode(ver, f);
    if n >= HEADER_SIZE {
      Le16RoundTrip(|f.data|);
      assert s[..n][2..4] == Le16(|f.data|);
    }
  }

  ghost predicate AllWellFormed(frames: seq<Frame>) {
    forall i :: 0 <= i < |frames| ==> WellFormed(frames[i])
  }

  function EncodeStream(ver: byte, frames: seq<Frame>): seq<byte>
    requires AllWellFormed(frames)
  {
    if frames == [] then [] else Encode(ver, frames[0]) + EncodeStream(ver, frames[1..])
  }

  /** The frames the receive loop has taken out of the bytes that arrived so far. */
  function DecodeStream(ver: byte, s: seq<byte>): seq<Frame>
    decreases |s|
  {
    var r := Decode(ver, s);
    if r.Got? && |r.rest| < |s| then [r.frame] + DecodeStream(ver, r.rest) else []
  }

  lemma Within(a: seq<byte>, b: seq<byte>, n: nat)
    requires n <= |a|
    ensures (a + b)[..n] == a[..n]
  {
  }

  lemma Beyond(a: seq<byte>, b: seq<byte>, n: nat)
    requires |a| <= n <= |a| + |b|
    ensures (a + b)[..n] == a + b[..n - |a|]
  {
  }

  /** `j` is how many of the frames are complete in the first `n` bytes of their encoding. */
  ghost predicate Arrived(ver: byte, frames: seq<Frame>, n: nat, j: nat)
    requires AllWellFormed(frames)
  {
    && j <= |frames| && |EncodeStream(ver, frames[..j])| <= n
    && (j < |frames| ==> n < |EncodeStream(ver, frames[..j + 1])|)
  }

  /** At every moment the frames received are exactly those that have arrived whole. */
  lemma {:induction false} StreamPrefix(ver: byte, frames: seq<Frame>, n: nat) returns (j: nat)
    requires AllWellFormed(frames) && n <= |EncodeStream(ver, frames)|
    ensures Arrived(ver, frames, n, j) && DecodeStream(ver, EncodeStream(ver, frames)[..n]) == frames[..j]
    decreases |frames|
  {
    hide Encode, DecodeStream;
    j := 0;
    if frames == [] {
      NoFrame(ver, []);
    } else {
      var first, more := Encode(ver, frames[0]), EncodeStream(ver, frames[1..]);
      if n < |first| {
        Within(first, more, n);
        DecodePrefix(ver, frames[0], n);
        NoFrame(ver, first[..n]);
        assert frames[..1] == [frames[0]];
      } else {
        Beyond(first, more, n);
        OneFrame(ver, frames[0], more[..n - |first|]);
        var i := StreamPrefix(ver, frames[1..], n - |first|);
        j := i + 1;
        FirstAnd(ver, frames, i);
        if j < |frames| {
          FirstAnd(ver, frames, i + 1);
        }
      }
    }
  }

  lemma FirstAnd(ver: byte, frames: seq<Frame>, i: nat)
    requires AllWellFormed(frames) && i + 1 <= |frames|
    ensures frames[..i + 1] == [frames[0]] + frames[1..][..i]
    ensures EncodeStream(ver, frames[..i + 1]) == Encode(ver, frames[0]) + EncodeStream(ver, frames[1..][..i])
  {
    hide Encode;
    assert frames[..i + 1][1..] == frames[1..][..i];
  }

  lemma NoFrame(ver: byte, s: seq<byte>)
    requires Decode(ver, s) == More
    ensures DecodeStream(ver, s) == []
  {
  }

  lemma OneFrame(ver: byte, f: Frame, rest: seq<byte>)
    requires WellFormed(f)
    ensures DecodeStream(ver, Encode(ver, f) + rest) == [f] + DecodeStream(ver, rest)
  {
    DecodeEncode(ver, f, rest);
  }

  // ---- Write requests ----

  /** `ticket` is how many requests had been numbered before and including this one; the
      source keeps only its low 32 bits, as `seq`. */
  datatype Request = Request(ctrl: bool, ticket: nat, frame: Frame) {
    function Seq(): u32 {
      Wrap(ticket)
    }
  }

  /** `cmp` is `Greater`: the max-heap yields `a` before `b`. */
  predicate Before(a: Request, b: Request) {
    if a.ctrl != b.ctrl then a.ctrl else TimeDiff(b.Seq(), a.Seq()) > 0
  }

  /** Pending requests are numbered within half the sequence space of each other. */
  ghost predicate Near(a: Request, b: Request) {
    -TWO31 < a.ticket - b.ticket < TWO31
  }

  /** The wrapping comparison orders near requests by class, then by age. */
  lemma BeforeIsAge(a: Request, b: Request)
    requires Near(a, b)
    ensures Before(a, b) <==> if a.ctrl != b.ctrl then a.ctrl else a.ticket < b.ticket
  {
    TimeDiffIsOffset(b.ticket, a.ticket);
  }

  /** Half the sequence space is the most that works: two requests of one class exactly that
      far apart are not ordered at all. */
  lemma BeforeNeedsNear(a: Request, b: Request)
    requires a.ctrl == b.ctrl && b.ticket == a.ticket + TWO31
    ensures !Before(a, b) && !Before(b, a)
  {
    WrapDifference(b.ticket, a.ticket);
    WrapDifference(a.ticket, b.ticket);
  }

  ghost predicate AllNear(heap: set<Request>) {
    forall a, b :: a in heap && b in heap ==> Near(a, b)
  }

  /** A request no other pending one comes before. */
  ghost predicate Next(heap: set<Request>, r: Request) {
    r in heap && forall o :: o in heap ==> !Before(o, r)
  }

  /** What a pop may yield: the next request while the comparison is an order, and any
      pending one when it is not. */
  ghost predicate Yields(heap: set<Request>, r: Request) {
    r in heap && (AllNear(heap) ==> Next(heap, r))
  }

  /** While it is an order, a pop yields the oldest control request if there is one, else the oldest data request. */
  lemma NextIsOldest(heap: set<Request>, r: Request)
    requires AllNear(heap) && Yields(heap, r)
    ensures r.ctrl || forall o :: o in heap ==> !o.ctrl
    ensures forall o :: o in heap && o.ctrl == r.ctrl ==> r.ticket <= o.ticket
  {
    forall o | o in heap ensures (o.ctrl ==> r.ctrl) && (o.ctrl == r.ctrl ==> r.ticket <= o.ticket) {
      assert Near(o, r);
      BeforeIsAge(o, r);
    }
  }

  /** The heap always has something to yield. */
  lemma {:induction false} NextExists(heap: set<Request>) returns (r: Request)
    requires heap != {} && AllNear(heap)
    ensures Next(heap, r)
  {
    var x :| x in heap;
    if heap == {x} {
      r := x;
      BeforeIsAge(x, x);
    } else {
      r := NextExists(heap - {x});
      forall o | o in heap ensures (Before(o, r) <==> if o.ctrl != r.ctrl then o.ctrl else o.ticket < r.ticket)
                                && (Before(o, x) <==> if o.ctrl != x.ctrl then o.ctrl else o.ticket < x.ticket) {
        BeforeIsAge(o, r);
        BeforeIsAge(o, x);
      }
      if Before(x, r) {
        r := x;
      }
    }
  }
}
