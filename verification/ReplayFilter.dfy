/** The time-bounded replay filter: a map for lookups and a queue for eviction, and what the
    pair answers over a whole history of calls. The keyed digest of the tested bytes is an
    argument. */
module ReplayFilter {
  const MAX_FILTER_SIZE: nat := 102400

  type digest = x: int | 0 <= x < 0x1_0000_0000_0000_0000

  datatype Entry = Entry(digest: digest, firstSeen: int)

  // ---- The queue ----

  /** What `compact` leaves of the queue. */
  function Compacted(fifo: seq<Entry>, now: int, ttl: nat): (r: seq<Entry>)
    ensures r != [] ==> |r| < MAX_FILTER_SIZE
  {
    if fifo == [] then []
    else if |fifo| < MAX_FILTER_SIZE && ttl != 0 && now < fifo[0].firstSeen then []
    else if |fifo| < MAX_FILTER_SIZE && ttl != 0 && now - fifo[0].firstSeen < ttl then fifo
    else Compacted(fifo[1..], now, ttl)
  }

  /** An entry that compacting stops at: young enough, and not one too many. */
  predicate Stays(fifo: seq<Entry>, i: nat, now: int, ttl: nat)
    requires i < |fifo|
  {
    |fifo| - i < MAX_FILTER_SIZE && ttl != 0 && now - fifo[i].firstSeen < ttl
  }

  /** Under any clock: what is dropped is the old and the excess at the front, and everything
      if the clock is then behind the entry in front. */
  lemma {:induction false} CompactedFront(fifo: seq<Entry>, now: int, ttl: nat) returns (i: nat)
    ensures i <= |fifo| && (forall j :: 0 <= j < i ==> !Stays(fifo, j, now, ttl)) && (i < |fifo| ==> Stays(fifo, i, now, ttl))
    ensures Compacted(fifo, now, ttl) == if i < |fifo| && now >= fifo[i].firstSeen then fifo[i..] else []
  {
    i := 0;
    if fifo != [] && !Stays(fifo, 0, now, ttl) {
      var h := CompactedFront(fifo[1..], now, ttl);
      i := h + 1;
      forall j | 0 <= j < i ensures !Stays(fifo, j, now, ttl) {
        assert j > 0 ==> !Stays(fifo[1..], j - 1, now, ttl);
      }
      assert h < |fifo| - 1 ==> Stays(fifo[1..], h, now, ttl) && fifo[1..][h..] == fifo[i..];
    }
  }

  ghost predicate Holds(fifo: seq<Entry>, d: digest) {
    exists i :: 0 <= i < |fifo| && fifo[i].digest == d
  }

  ghost predicate Distinct(fifo: seq<Entry>) {
    forall i, j :: 0 <= i < j < |fifo| ==> fifo[i].digest != fifo[j].digest
  }

  /** The map is the queue, by digest. */
  ghost predicate Matches(filter: map<digest, int>, fifo: seq<Entry>) {
    && (forall i :: 0 <= i < |fifo| ==> fifo[i].digest in filter && filter[fifo[i].digest] == fifo[i].firstSeen)
    && (forall d :: d in filter ==> Holds(fifo, d))
  }

  lemma Popped(filter: map<digest, int>, fifo: seq<Entry>)
    requires fifo != [] && Distinct(fifo) && Matches(filter, fifo)
    ensures Distinct(fifo[1..]) && Matches(filter - {fifo[0].digest}, fifo[1..])
  {
    forall d | d in filter - {fifo[0].digest} ensures Holds(fifo[1..], d) {
      var i :| 0 <= i < |fifo| && fifo[i].digest == d;
      assert fifo[1..][i - 1].digest == d;
    }
  }

  lemma Pushed(filter: map<digest, int>, fifo: seq<Entry>, e: Entry)
    requires Distinct(fifo) && Matches(filter, fifo) && e.digest !in filter
    ensures Distinct(fifo + [e]) && Matches(filter[e.digest := e.firstSeen], fifo + [e])
  {
    var longer := fifo + [e];
    forall d | d in filter[e.digest := e.firstSeen] ensures Holds(longer, d) {
      if d == e.digest {
        assert longer[|fifo|].digest == d;
      } else {
        var i :| 0 <= i < |fifo| && fifo[i].digest == d;
        assert longer[i].digest == d;
      }
    }
  }

  class Filter {
    const ttl: nat
    var filter: map<digest, int>
    var fifo: seq<Entry>

    /** Map and queue hold the same digests, none twice, within the size limit. */
    ghost predicate Valid()
      reads this
    {
      Distinct(fifo) && Matches(filter, fifo) && |fifo| <= MAX_FILTER_SIZE
    }

    constructor (ttl: nat)
      ensures Valid() && fifo == [] && this.ttl == ttl
    {
      this.ttl := ttl;
      filter, fifo := map[], [];
    }

    /** True if the digest is remembered; otherwise records it. */
    method TestAndSet(now: int, d: digest) returns (seen: bool)
      requires Valid()
      modifies this
      ensures Valid()
      ensures seen <==> Holds(Compacted(old(fifo), now, ttl), d)
      ensures fifo == Compacted(old(fifo), now, ttl) + if seen then [] else [Entry(d, now)]
      ensures forall calls :: old(fifo) == After(calls, ttl) ==>
                seen == Answer(calls, ttl, Call(now, d)) && fifo == After(calls + [Call(now, d)], ttl)
    {
      AfterCall(now, d, fifo, ttl);
      Compact(now);
      if d in filter {
        return true;
      }
      Pushed(filter, fifo, Entry(d, now));
      assert !Holds(fifo, d);
      filter := filter[d := now];
      fifo := fifo + [Entry(d, now)];
      return false;
    }

    method Compact(now: int)
      requires Valid()
      modifies this
      ensures Valid() && |fifo| < MAX_FILTER_SIZE
      ensures fifo == Compacted(old(fifo), now, ttl)
    {
      while fifo != []
        invariant Valid() && Compacted(fifo, now, ttl) == Compacted(old(fifo), now, ttl)
        decreases |fifo|
      {
        var front := fifo[0];
        if |fifo| < MAX_FILTER_SIZE && ttl != 0 {
          if now < front.firstSeen {
            filter, fifo := map[], [];
            return;
          }
          if now - front.firstSeen < ttl {
            return;
          }
        }
        Popped(filter, fifo);
        fifo := fifo[1..];
        filter := filter - {front.digest};
      }
    }
  }

  // ---- Histories ----

  datatype Call = Call(now: int, digest: digest)

  /** The queue after a history of calls. */
  ghost function After(calls: seq<Call>, ttl: nat): seq<Entry> {
    if calls == [] then []
    else
      var last := calls[|calls| - 1];
      var kept := Compacted(After(calls[..|calls| - 1], ttl), last.now, ttl);
      kept + if Holds(kept, last.digest) then [] else [Entry(last.digest, last.now)]
  }

  lemma AfterCall(now: int, d: digest, fifo: seq<Entry>, ttl: nat)
    ensures forall calls :: After(calls, ttl) == fifo ==>
              var kept := Compacted(fifo, now, ttl);
              After(calls + [Call(now, d)], ttl) == kept + if Holds(kept, d) then [] else [Entry(d, now)]
  {
    forall calls | After(calls, ttl) == fifo
      ensures var kept := Compacted(fifo, now, ttl);
              After(calls + [Call(now, d)], ttl) == kept + if Holds(kept, d) then [] else [Entry(d, now)]
    {
      assert (calls + [Call(now, d)])[..|calls|] == calls;
    }
  }

  /** What a call answers after a history. */
  ghost predicate Answer(calls: seq<Call>, ttl: nat, call: Call) {
    Holds(Compacted(After(calls, ttl), call.now, ttl), call.digest)
  }

  /** Every entry a history recorded: one for each call answered false, in order. A replay
      records nothing, so it cannot extend a life. */
  ghost function Recorded(calls: seq<Call>, ttl: nat): seq<Entry> {
    if calls == [] then []
    else
      var before, last := calls[..|calls| - 1], calls[|calls| - 1];
      Recorded(before, ttl) + if Answer(before, ttl, last) then [] else [Entry(last.digest, last.now)]
  }

  ghost predicate NonDecreasing(calls: seq<Call>) {
    forall i, j :: 0 <= i < j < |calls| ==> calls[i].now <= calls[j].now
  }

  /** Record `i` is less than `ttl` old and fewer than the limit were recorded from it on. */
  ghost predicate Remembered(log: seq<Entry>, i: nat, now: int, ttl: nat)
    requires i < |log|
  {
    |log| - i < MAX_FILTER_SIZE && now - log[i].firstSeen < ttl
  }

  ghost predicate Remembers(log: seq<Entry>, call: Call, ttl: nat) {
    exists i: nat :: i < |log| && log[i].digest == call.digest && Remembered(log, i, call.now, ttl)
  }

  /** The log is in time order and ends by `now`; the queue is its last entries, and those
      before it are no longer remembered. */
  ghost predicate Tail(log: seq<Entry>, fifo: seq<Entry>, now: int, ttl: nat) {
    && |fifo| <= |log| && fifo == log[|log| - |fifo|..]
    && (forall i, j :: 0 <= i < j < |log| ==> log[i].firstSeen <= log[j].firstSeen)
    && (forall i :: 0 <= i < |log| ==> log[i].firstSeen <= now)
    && (forall i: nat :: i < |log| - |fifo| ==> !Remembered(log, i, now, ttl))
  }

  lemma TailLater(log: seq<Entry>, fifo: seq<Entry>, now: int, later: int, ttl: nat)
    requires Tail(log, fifo, now, ttl) && now <= later
    ensures Tail(log, fifo, later, ttl)
  {
    forall i: nat | i < |log| - |fifo| ensures !Remembered(log, i, later, ttl) {
      assert !Remembered(log, i, now, ttl);
    }
  }

  /** Compacting keeps exactly what is remembered. */
  lemma {:induction false} CompactedTail(log: seq<Entry>, fifo: seq<Entry>, now: int, ttl: nat)
    requires Tail(log, fifo, now, ttl)
    ensures var kept := Compacted(fifo, now, ttl);
            Tail(log, kept, now, ttl)
            && forall i: nat :: |log| - |kept| <= i < |log| ==> Remembered(log, i, now, ttl)
    decreases |fifo|
  {
    if fifo != [] {
      var k := |log| - |fifo|;
      assert fifo[0] == log[k];
      if |fifo| < MAX_FILTER_SIZE && ttl != 0 && now - fifo[0].firstSeen < ttl {
        forall i: nat | k <= i < |log| ensures Remembered(log, i, now, ttl) {
          assert log[k].firstSeen <= log[i].firstSeen;
        }
      } else {
        assert !Remembered(log, k, now, ttl);
        assert log[k..][1..] == log[k + 1..];
        CompactedTail(log, fifo[1..], now, ttl);
      }
    }
  }

  lemma {:induction false} HistoryTail(calls: seq<Call>, ttl: nat, now: int)
    requires NonDecreasing(calls) && forall i :: 0 <= i < |calls| ==> calls[i].now <= now
    ensures Tail(Recorded(calls, ttl), After(calls, ttl), now, ttl)
  {
    if calls != [] {
      var before, last := calls[..|calls| - 1], calls[|calls| - 1];
      var log, fifo := Recorded(before, ttl), After(before, ttl);
      HistoryTail(before, ttl, last.now);
      CompactedTail(log, fifo, last.now, ttl);
      var kept := Compacted(fifo, last.now, ttl);
      var e := if Answer(before, ttl, last) then [] else [Entry(last.digest, last.now)];
      Grown(log, kept, e, last.now, ttl);
      TailLater(log + e, kept + e, last.now, now, ttl);
    }
  }

  lemma Grown(log: seq<Entry>, kept: seq<Entry>, e: seq<Entry>, now: int, ttl: nat)
    requires Tail(log, kept, now, ttl) && |e| <= 1 && forall i :: 0 <= i < |e| ==> e[i].firstSeen == now
    ensures Tail(log + e, kept + e, now, ttl)
  {
    var longer := log + e;
    assert longer[|log| - |kept|..] == log[|log| - |kept|..] + e;
    forall i: nat | i < |log| - |kept| ensures !Remembered(longer, i, now, ttl) {
      assert !Remembered(log, i, now, ttl);
    }
  }

  /** Under a clock that never goes back, a call answers true exactly when its digest was
      recorded less than `ttl` ago and has not been pushed out by newer records. */
  lemma AnswerIsMemory(calls: seq<Call>, ttl: nat, call: Call)
    requires NonDecreasing(calls + [call])
    ensures Answer(calls, ttl, call) <==> Remembers(Recorded(calls, ttl), call, ttl)
  {
    var log, fifo := Recorded(calls, ttl), After(calls, ttl);
    EndsBy(calls, call);
    hide Recorded, After, Compacted, Tail, Remembered, Remembers, Holds, NonDecreasing;
    HistoryTail(calls, ttl, call.now);
    CompactedTail(log, fifo, call.now, ttl);
    TailHolds(log, Compacted(fifo, call.now, ttl), call, ttl);
  }

  lemma EndsBy(calls: seq<Call>, call: Call)
    requires NonDecreasing(calls + [call])
    ensures NonDecreasing(calls) && forall i :: 0 <= i < |calls| ==> calls[i].now <= call.now
  {
    var all := calls + [call];
    assert forall i :: 0 <= i < |calls| ==> all[i] == calls[i];
    assert all[|calls|] == call;
  }

  lemma TailHolds(log: seq<Entry>, kept: seq<Entry>, call: Call, ttl: nat)
    requires Tail(log, kept, call.now, ttl)
    requires forall i: nat :: |log| - |kept| <= i < |log| ==> Remembered(log, i, call.now, ttl)
    ensures Holds(kept, call.digest) <==> Remembers(log, call, ttl)
  {
    var k := |log| - |kept|;
    if Holds(kept, call.digest) {
      var j :| 0 <= j < |kept| && kept[j].digest == call.digest;
      assert log[k + j].digest == call.digest && Remembered(log, k + j, call.now, ttl);
    }
    if i: nat :| i < |log| && log[i].digest == call.digest && Remembered(log, i, call.now, ttl) {
      assert kept[i - k].digest == call.digest;
    }
  }

  /** Whatever the clock does, nothing is called a replay that was not recorded. */
  lemma NoFalseReplay(calls: seq<Call>, ttl: nat, call: Call)
    requires Answer(calls, ttl, call)
    ensures exists i :: 0 <= i < |calls| && calls[i].digest == call.digest && !Answer(calls[..i], ttl, calls[i])
  {
    var fifo := After(calls, ttl);
    KeptOf(fifo, call.now, ttl);
    var kept := Compacted(fifo, call.now, ttl);
    var j :| 0 <= j < |kept| && kept[j].digest == call.digest;
    assert kept[j] in fifo;
    EntryWasCalled(calls, ttl, kept[j]);
  }

  lemma {:induction false} KeptOf(fifo: seq<Entry>, now: int, ttl: nat)
    ensures forall e :: e in Compacted(fifo, now, ttl) ==> e in fifo
  {
    if fifo != [] {
      KeptOf(fifo[1..], now, ttl);
    }
  }

  lemma {:induction false} EntryWasCalled(calls: seq<Call>, ttl: nat, e: Entry)
    ensures e in After(calls, ttl) ==>
              exists i :: 0 <= i < |calls| && calls[i].digest == e.digest && !Answer(calls[..i], ttl, calls[i])
  {
    if calls != [] && e in After(calls, ttl) {
      var k := |calls| - 1;
      var before := calls[..k];
      var kept := Compacted(After(before, ttl), calls[k].now, ttl);
      KeptOf(After(before, ttl), calls[k].now, ttl);
      if e in kept {
        EntryWasCalled(before, ttl, e);
        var i :| 0 <= i < |before| && before[i].digest == e.digest && !Answer(before[..i], ttl, before[i]);
        assert before[..i] == calls[..i];
      } else {
        assert calls[k].digest == e.digest && !Answer(calls[..k], ttl, calls[k]);
      }
    }
  }
}
