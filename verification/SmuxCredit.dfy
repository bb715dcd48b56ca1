/** Version 2 flow control of one stream: the writer's credit window and the reader's
    window updates, as the atomic steps of the two tasks and of the receive loop between. */
module SmuxCredit {
  import opened Words
  import opened Wrappers
  import opened SmuxFrames

  /** `max_stream_buffer`, as `verify` admits it. */
  type stream32 = x: int | 0 < x < TWO31 witness 65536

  /** `window`: the reader's `max_stream_buffer`.
      Writer: `submitted` counts bytes handed over as frames, `numWritten` those whose frame
      is known to be written; `grant` is what is left of the bytes the last window let
      through; `loaded` is a `peer_consumed` read whose `peer_window` has not been read yet.
      Reader: `numRead`, `incr`. `updates`: consumed counts sent and not yet processed;
      `half`: one has been stored whose window has not. */
  datatype Stream = Stream(
    window: stream32,
    submitted: nat, numWritten: u32, grant: nat, loaded: Option<u32>,
    peerConsumed: u32, peerWindow: u32,
    numRead: u32, incr: u32, updates: seq<u32>, half: bool)

  datatype Step =
    | LoadConsumed
    | LoadWindow(want: nat)
    | Submit(n: nat)
    | Complete
    | Read(n: nat)
    | StoreConsumed
    | StoreWindow

  function New(window: stream32): Stream {
    Stream(window, 0, 0, 0, None, 0, INITIAL_PEER_WINDOW, 0, 0, [], false)
  }

  /** `inflight`, negative if the peer claims to have consumed more than was sent. */
  function Inflight(s: Stream, consumed: u32): int {
    TimeDiff(s.numWritten, consumed)
  }

  function Win(s: Stream, consumed: u32): int {
    s.peerWindow - Inflight(s, consumed)
  }

  /** `try_read` of `n` bytes: whether an update is due, which zero bytes never send. */
  predicate UpdateDue(s: Stream, n: nat) {
    Wrap(s.incr + n) >= s.window / 2 || Wrap(s.numRead + n) == n
  }

  function DoRead(s: Stream, n: nat): Stream {
    var numRead := Wrap(s.numRead + n);
    if UpdateDue(s, n) then
      s.(numRead := numRead, incr := 0,
         updates := if n > 0 && numRead > 0 then s.updates + [numRead] else s.updates)
    else s.(numRead := numRead, incr := Wrap(s.incr + n))
  }

  /** The one writing task loads its window only when no frame of it is outstanding; a
      stream carries less than 2^32 bytes. */
  predicate Enabled(s: Stream, step: Step) {
    match step
    case LoadConsumed => s.grant == 0 && s.numWritten == s.submitted
    case LoadWindow(want) => s.loaded.Some? && s.grant == 0 && s.numWritten == s.submitted
    case Submit(n) => 0 < n <= s.grant && s.numWritten == s.submitted && s.submitted + n < TWO32
    case Complete => true
    case Read(n) => s.numRead + n <= s.submitted
    case StoreConsumed => s.updates != [] && !s.half
    case StoreWindow => s.half
  }

  function Apply(s: Stream, step: Step): Stream
    requires Enabled(s, step)
  {
    match step
    case LoadConsumed => s.(loaded := Some(s.peerConsumed))
    case LoadWindow(want) =>
      s.(loaded := None,
         grant := if Inflight(s, s.loaded.value) >= 0 then Max(0, Min(Win(s, s.loaded.value), want)) else 0)
    case Submit(n) => s.(submitted := s.submitted + n, grant := s.grant - n)
    case Complete => s.(numWritten := Wrap(s.submitted))
    case Read(n) => DoRead(s, n)
    case StoreConsumed => s.(peerConsumed := s.updates[0], updates := s.updates[1..], half := true)
    case StoreWindow => s.(peerWindow := s.window, half := false)
  }

  function Run(s: Stream, steps: seq<Step>): Stream
    decreases |steps|
  {
    if steps == [] then s
    else Run(if Enabled(s, steps[0]) then Apply(s, steps[0]) else s, steps[1..])
  }

  /** The last consumed count the reader has announced. */
  function Announced(s: Stream): u32 {
    if s.updates == [] then s.peerConsumed else s.updates[|s.updates| - 1]
  }

  function Limit(s: Stream): int {
    Max(INITIAL_PEER_WINDOW, s.window)
  }

  ghost predicate Reading(s: Stream) {
    && s.numRead <= s.submitted < TWO32
    && Announced(s) + s.incr == s.numRead
    && (s.incr == 0 || s.incr < s.window / 2)
    && (s.numRead > 0 && s.updates == [] && !s.half ==> s.peerWindow == s.window)
  }

  ghost predicate Announcing(s: Stream) {
    && (forall i, j :: 0 <= i <= j < |s.updates| ==> s.updates[i] <= s.updates[j])
    && (forall i :: 0 <= i < |s.updates| ==> s.peerConsumed <= s.updates[i])
    && (s.peerWindow == INITIAL_PEER_WINDOW || s.peerWindow == s.window)
  }

  /** Bytes out and bytes still granted stay within the window above what the writer has
      last been told was consumed, and so within the window above what was read. */
  ghost predicate Writing(s: Stream) {
    && s.numWritten <= s.submitted
    && s.submitted + s.grant <= s.peerConsumed + Limit(s)
    && (s.loaded.Some? ==> s.grant == 0 && s.loaded.value <= s.peerConsumed
                           && s.submitted <= s.loaded.value + Limit(s))
  }

  ghost predicate Inv(s: Stream) {
    Reading(s) && Announcing(s) && Writing(s)
  }

  /** `inflight` is exactly what it stands for, whichever count the writer loaded. */
  lemma InflightIs(s: Stream, consumed: u32)
    requires Inv(s) && consumed <= s.peerConsumed && s.numWritten == s.submitted <= consumed + Limit(s)
    ensures consumed <= s.numRead && 0 <= Inflight(s, consumed) == s.submitted - consumed <= Limit(s)
  {
    assert consumed <= Announced(s);
    WrapSmall(s.submitted);
    WrapSmall(consumed);
    TimeDiffIsOffset(s.submitted, consumed);
  }

  lemma ReadKeepsReading(s: Stream, n: nat)
    requires Inv(s) && s.numRead + n <= s.submitted
    ensures Reading(DoRead(s, n)) && Writing(DoRead(s, n)) && DoRead(s, n).numRead == s.numRead + n
  {
    hide Wrap, Announcing;
    WrapSmall(s.numRead + n);
    WrapSmall(s.incr + n);
  }

  lemma ReadKeepsAnnouncing(s: Stream, n: nat)
    requires Inv(s) && DoRead(s, n).numRead == s.numRead + n
    ensures Announcing(DoRead(s, n))
  {
    hide Wrap, Writing;
    var s' := DoRead(s, n);
    if s'.updates != s.updates {
      assert s'.updates == s.updates + [s'.numRead];
      forall i | 0 <= i < |s.updates| ensures s.updates[i] <= s'.numRead {
        assert s.updates[i] <= Announced(s);
      }
    }
  }

  lemma ReadKeeps(s: Stream, n: nat)
    requires Inv(s) && s.numRead + n <= s.submitted
    ensures Inv(DoRead(s, n))
  {
    ReadKeepsReading(s, n);
    ReadKeepsAnnouncing(s, n);
  }

  lemma StoreKeeps(s: Stream)
    requires Inv(s) && s.updates != [] && !s.half
    ensures Inv(Apply(s, StoreConsumed))
  {
  }

  lemma GrantKeeps(s: Stream, want: nat)
    requires Inv(s) && Enabled(s, LoadWindow(want))
    ensures Inv(Apply(s, LoadWindow(want)))
  {
    InflightIs(s, s.loaded.value);
    hide TimeDiff;
  }

  lemma StepKeeps(s: Stream, step: Step)
    requires Inv(s) && Enabled(s, step)
    ensures Inv(Apply(s, step)) && Apply(s, step).window == s.window
  {
    hide Wrap;
    match step
    case Read(n) => ReadKeeps(s, n);
    case StoreConsumed => StoreKeeps(s);
    case LoadWindow(want) => GrantKeeps(s, want);
    case Complete => WrapSmall(s.submitted);
    case _ =>
  }

  lemma {:induction false} RunKeeps(s: Stream, steps: seq<Step>)
    requires Inv(s)
    ensures Inv(Run(s, steps)) && Run(s, steps).window == s.window
    decreases |steps|
  {
    if steps != [] {
      var s1 := if Enabled(s, steps[0]) then Apply(s, steps[0]) else s;
      if Enabled(s, steps[0]) {
        StepKeeps(s, steps[0]);
      }
      hide Inv, Enabled, Apply;
      RunKeeps(s1, steps[1..]);
    }
  }

  /** Bytes written and not yet read never exceed the larger of the two windows. */
  lemma CreditBound(window: stream32, steps: seq<Step>)
    ensures var s := Run(New(window), steps);
            s.submitted - s.numRead <= Max(INITIAL_PEER_WINDOW, window)
  {
    RunKeeps(New(window), steps);
  }

  /** No deadlock: once everything written has been read and every update stored, the window
      the writer computes is positive. */
  lemma WindowReopens(window: stream32, steps: seq<Step>)
    ensures var s := Run(New(window), steps);
            s.numRead == s.submitted == s.numWritten && s.updates == [] && !s.half
            ==> Win(s, s.peerConsumed) > 0
  {
    RunKeeps(New(window), steps);
    var s := Run(New(window), steps);
    if s.numRead == s.submitted == s.numWritten && s.updates == [] && !s.half {
      InflightIs(s, s.peerConsumed);
    }
  }

  /** Whenever the writer computes its window, its `inflight` is the number of bytes sent
      and, as far as it had heard, not consumed: never negative, so the source's "peer
      consumed more than sent" error cannot come from an honest peer. */
  lemma InflightExact(window: stream32, steps: seq<Step>, want: nat)
    ensures var s := Run(New(window), steps);
            Enabled(s, LoadWindow(want)) ==>
              0 <= Inflight(s, s.loaded.value) == s.submitted - s.loaded.value <= Max(INITIAL_PEER_WINDOW, window)
  {
    RunKeeps(New(window), steps);
    var s := Run(New(window), steps);
    if Enabled(s, LoadWindow(want)) {
      InflightIs(s, s.loaded.value);
    }
  }

  /** What a load of the window lets through: as much of what is wanted as the peer's window
      leaves above the bytes it was last heard not to have consumed, and never less than that. */
  lemma GrantExact(window: stream32, steps: seq<Step>, want: nat)
    ensures var s := Run(New(window), steps);
            Enabled(s, LoadWindow(want)) ==>
              var s' := Apply(s, LoadWindow(want));
              && s'.grant == Max(0, Min(s.peerWindow - (s.submitted - s.loaded.value), want))
              && s' == s.(loaded := None, grant := s'.grant)
  {
    RunKeeps(New(window), steps);
    var s := Run(New(window), steps);
    if Enabled(s, LoadWindow(want)) {
      InflightIs(s, s.loaded.value);
    }
  }

  /** No deadlock, to the end: once everything written has been read and every update stored,
      a writer that wants to can hand over the next byte, if need be after loading its window. */
  lemma WriterGoesOn(window: stream32, steps: seq<Step>, want: nat)
    ensures var s := Run(New(window), steps);
            s.numRead == s.submitted == s.numWritten && s.updates == [] && !s.half && want > 0
            && s.submitted + 1 < TWO32 ==>
              if s.grant > 0 then Enabled(s, Submit(1)) && Apply(s, Submit(1)).submitted == s.submitted + 1
              else
                Enabled(s, LoadConsumed) &&
                var s1 := Apply(s, LoadConsumed);
                Enabled(s1, LoadWindow(want)) &&
                var s2 := Apply(s1, LoadWindow(want));
                Enabled(s2, Submit(1)) && Apply(s2, Submit(1)).submitted == s.submitted + 1
  {
    RunKeeps(New(window), steps);
    WindowReopens(window, steps);
    var s := Run(New(window), steps);
    if s.numRead == s.submitted == s.numWritten && s.updates == [] && !s.half && s.grant == 0 {
      InflightIs(s, s.peerConsumed);
      StepKeeps(s, LoadConsumed);
    }
  }

  function Total(sizes: seq<nat>): nat {
    if sizes == [] then 0 else sizes[0] + Total(sizes[1..])
  }

  /** One frame after the other, each known to be written before the next. */
  function Spending(sizes: seq<nat>): seq<Step> {
    if sizes == [] then [] else [Submit(sizes[0]), Complete] + Spending(sizes[1..])
  }

  /** A grant lasts to its last byte, in frames of any sizes. */
  lemma {:induction false} GrantIsSpent(s: Stream, sizes: seq<nat>)
    requires Total(sizes) <= s.grant && s.numWritten == s.submitted && s.submitted + Total(sizes) < TWO32
    requires forall i :: 0 <= i < |sizes| ==> sizes[i] > 0
    ensures var n := Total(sizes);
            Run(s, Spending(sizes)) == s.(submitted := s.submitted + n, numWritten := s.submitted + n, grant := s.grant - n)
    decreases |sizes|
  {
    if sizes != [] {
      hide Wrap;
      var s1 := s.(submitted := s.submitted + sizes[0], grant := s.grant - sizes[0]);
      var s2 := s1.(numWritten := s1.submitted);
      WrapSmall(s1.submitted);
      var steps := Spending(sizes);
      assert steps[1..][1..] == Spending(sizes[1..]);
      assert Run(s, steps) == Run(s1, steps[1..]) == Run(s2, Spending(sizes[1..]));
      GrantIsSpent(s2, sizes[1..]);
    }
  }

  /** A read announces what has been read when it is the first one, or when half a window or
      more has been read since the last announcement; and otherwise says nothing. */
  lemma AnnouncesInTime(window: stream32, steps: seq<Step>, n: nat)
    ensures var s := Run(New(window), steps);
            Enabled(s, Read(n)) ==>
              var s' := Apply(s, Read(n));
              && s'.numRead == s.numRead + n
              && s'.updates == s.updates
                   + if n > 0 && (s.numRead == 0 || s.numRead + n - Announced(s) >= window / 2)
                     then [s.numRead + n] else []
  {
    hide DoRead;
    RunKeeps(New(window), steps);
    var s := Run(New(window), steps);
    if Enabled(s, Read(n)) {
      ReadAnnounces(s, n);
    }
  }

  lemma ReadAnnounces(s: Stream, n: nat)
    requires Reading(s) && s.numRead + n <= s.submitted
    ensures var s' := DoRead(s, n);
            && s'.numRead == s.numRead + n
            && s'.updates == s.updates
                 + if n > 0 && (s.numRead == 0 || s.numRead + n - Announced(s) >= s.window / 2)
                   then [s.numRead + n] else []
  {
    hide Wrap;
    WrapSmall(s.numRead + n);
    WrapSmall(s.incr + n);
    assert s.updates + [] == s.updates;
  }
}
