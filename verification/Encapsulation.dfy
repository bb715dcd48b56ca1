/** Packets over a byte stream: length-prefixed data and padding chunks, read through a
    reader that may split its reads anywhere. */
module Encapsulation {
  import opened Words
  import opened Wrappers

  type bytes = seq<byte>

  datatype Error = Io | UnexpectedEof | InvalidData | InvalidInput

  const DATA_LIMIT: nat := 0x10_0000
  const SINK: nat := 1024

  // ---- Writing ----

  /** `data_prefix`, its bit operations as arithmetic on disjoint bits. */
  function DataPrefix(n: nat): (r: Result<bytes, Error>)
    ensures if n < DATA_LIMIT then r.Ok? else r == Err(InvalidInput)
  {
    if n / 64 == 0 then Ok([0x80 + n])
    else if n / 0x2000 == 0 then Ok([0xC0 + n / 128, n % 128])
    else if n / DATA_LIMIT == 0 then Ok([0xC0 + n / 0x4000, 0x80 + n / 128 % 128, n % 128])
    else Err(InvalidInput)
  }

  function EncodeData(data: bytes): (r: Result<bytes, Error>)
    ensures r.Ok? <==> |data| < DATA_LIMIT
  {
    var prefix := DataPrefix(|data|);
    if prefix.Err? then Err(prefix.error) else Ok(prefix.value + data)
  }

  /** One padding chunk of `p` bytes in all. */
  function PaddingChunk(p: nat): (r: bytes)
    requires 0 < p <= SINK
    ensures |r| == p
  {
    if p <= 64 then [p - 1] + Zeros(p - 1)
    else [0x40 + (p - 2) / 128, (p - 2) % 128] + Zeros(p - 2)
  }

  /** Padding is exactly as long as asked. */
  function Padding(n: nat): (r: bytes)
    ensures |r| == n
  {
    if n == 0 then [] else PaddingChunk(Min(n, SINK)) + Padding(n - Min(n, SINK))
  }

  method EncodePadding(n0: nat) returns (out: bytes)
    ensures out == Padding(n0)
  {
    var n: nat := n0;
    out := [];
    hide Padding, Zeros;
    assert out + Padding(n) == Padding(n);
    while n > 0
      invariant out + Padding(n) == Padding(n0)
    {
      var p := Min(n, SINK);
      PaddingStep(n);
      n := n - p;
      ghost var before, chunk := out, PaddingChunk(p);
      Prepended(before, chunk, Padding(n));
      if (p - 1) / 64 == 0 {
        p := p - 1;
        out := out + [p];
      } else if (p - 2) / 0x2000 == 0 {
        p := p - 2;
        out := out + [0x40 + p / 128, p % 128];
      } else {
        // No chunk is longer than 1024 bytes: the three-byte prefix is never needed.
        assert false;
      }
      out := out + Zeros(p);
      assert out == before + chunk;
    }
    EmptyPadding();
  }

  lemma PaddingStep(n: nat)
    requires n > 0
    ensures Padding(n) == PaddingChunk(Min(n, SINK)) + Padding(n - Min(n, SINK))
  {
  }

  lemma EmptyPadding()
    ensures Padding(0) == []
  {
  }

  lemma Prepended(a: bytes, b: bytes, c: bytes)
    ensures a + b + c == a + (b + c)
  {
  }

  // ---- What a stream holds ----

  datatype Prefix = Prefix(isData: bool, n: nat, used: nat)

  /** The prefix at the front of a non-empty stream. */
  function FrontPrefix(s: bytes): (r: Result<Prefix, Error>)
    requires s != []
    ensures r.Ok? ==> 0 < r.value.used <= |s|
  {
    var isData, n: nat := s[0] >= 0x80, s[0] % 64;
    if s[0] % 128 < 64 then Ok(Prefix(isData, n, 1))
    else if |s| == 1 then Err(UnexpectedEof)
    else
      var n1: nat := n * 128 + s[1] % 128;
      if s[1] < 128 then Ok(Prefix(isData, n1, 2))
      else if |s| == 2 then Err(UnexpectedEof)
      else if s[2] < 128 then Ok(Prefix(isData, n1 * 128 + s[2], 3))
      else Err(InvalidData)
  }

  /** What one read finds: a chunk and the stream after it, or a clean end. */
  datatype Found = Chunk(data: bytes, rest: bytes) | CleanEof

  /** The next data chunk, cut to `cap` bytes. */
  function NextData(s: bytes, cap: nat): (r: Result<Found, Error>)
    ensures r.Ok? && r.value.Chunk? ==> |r.value.data| <= cap && |r.value.rest| < |s|
    decreases |s|
  {
    if s == [] then Ok(CleanEof)
    else
      var p := FrontPrefix(s);
      if p.Err? then Err(p.error)
      else
        var body := s[p.value.used..];
        if |body| < p.value.n then Err(UnexpectedEof)
        else if p.value.isData then Ok(Chunk(body[..Min(p.value.n, cap)], body[p.value.n..]))
        else NextData(body[p.value.n..], cap)
  }

  // ---- Reading ----

  /** `data` written over `was` from `at` on. */
  function Spliced(was: bytes, at: nat, data: bytes): bytes
    requires at + |data| <= |was|
  {
    was[..at] + data + was[at + |data|..]
  }

  /** A byte stream and how its reads will split: each entry bounds one read, 0 makes it fail;
      past the last entry reads are as long as they can be. */
  class Source {
    var data: bytes
    var script: seq<nat>

    constructor (data: bytes, script: seq<nat>)
      ensures this.data == data && this.script == script
    {
      this.data, this.script := data, script;
    }

    ghost predicate Reliable()
      reads this
    {
      forall i :: 0 <= i < |script| ==> script[i] > 0
    }

    /** Reads into `buf[from..to]`; 0 is the end of the stream. */
    method Read(buf: array<byte>, from: nat, to: nat) returns (r: Result<nat, Error>)
      requires from < to <= buf.Length
      modifies this, buf
      ensures old(Reliable()) ==> r.Ok? && Reliable()
      ensures r.Err? ==> r.error == Io
      ensures r.Ok? ==> r.value <= to - from && r.value <= |old(data)| && (r.value == 0 <==> old(data) == [])
      ensures r.Ok? ==> data == old(data)[r.value..]
      ensures r.Ok? ==> buf[..] == Spliced(old(buf[..]), from, old(data)[..r.value])
    {
      var most := to - from;
      if script != [] {
        most := Min(most, script[0]);
        script := script[1..];
        if most == 0 {
          return Err(Io);
        }
      }
      var k := Min(most, |data|);
      forall i | 0 <= i < k {
        buf[from + i] := data[i];
      }
      data := data[k..];
      return Ok(k);
    }
  }

  method ReadByte(src: Source) returns (r: Result<Option<byte>, Error>)
    modifies src
    ensures old(src.Reliable()) ==> r.Ok? && src.Reliable()
    ensures r.Err? ==> r.error == Io
    ensures r.Ok? ==> r.value == if old(src.data) == [] then None else Some(old(src.data)[0])
    ensures r.Ok? ==> src.data == if old(src.data) == [] then [] else old(src.data)[1..]
  {
    var b := new byte[1](_ => 0);
    var k := src.Read(b, 0, 1);
    if k.Err? {
      return Err(k.error);
    }
    return Ok(if k.value == 0 then None else Some(b[0]));
  }

  /** Fills `buf[..len]` or fails. */
  method ReadExact(src: Source, buf: array<byte>, len: nat) returns (error: Option<Error>)
    requires len <= buf.Length
    modifies src, buf
    ensures old(src.Reliable()) ==> error != Some(Io) && src.Reliable()
    ensures error == Some(Io) || error == if |old(src.data)| < len then Some(UnexpectedEof) else None
    ensures error.None? ==> src.data == old(src.data)[len..]
    ensures error.None? ==> buf[..] == Spliced(old(buf[..]), 0, old(src.data)[..len])
  {
    hide *;
    var n := 0;
    ghost var all, was := src.data, buf[..];
    SpliceStart(was, all);
    while n < len
      invariant n <= len && n <= |all| && src.data == all[n..]
      invariant buf[..] == Spliced(was, 0, all[..n])
      invariant old(src.Reliable()) ==> src.Reliable()
      decreases len - n
    {
      var k := src.Read(buf, n, len);
      if k.Err? {
        return Some(k.error);
      }
      if k.value == 0 {
        return Some(UnexpectedEof);
      }
      Extended(was, all, n, k.value);
      n := n + k.value;
    }
    return None;
  }

  lemma SpliceStart(was: bytes, all: bytes)
    ensures Spliced(was, 0, all[..0]) == was && all[0..] == all
  {
  }

  lemma Extended(was: bytes, all: bytes, n: nat, k: nat)
    requires n + k <= |was| && n + k <= |all|
    ensures Spliced(Spliced(was, 0, all[..n]), n, all[n..][..k]) == Spliced(was, 0, all[..n + k])
    ensures all[n..][k..] == all[n + k..]
  {
    assert all[..n] + all[n..][..k] == all[..n + k];
  }

  method Discard(src: Source, n0: nat) returns (error: Option<Error>)
    modifies src
    ensures old(src.Reliable()) ==> error != Some(Io) && src.Reliable()
    ensures error == Some(Io) || error == if |old(src.data)| < n0 then Some(UnexpectedEof) else None
    ensures error.None? ==> src.data == old(src.data)[n0..]
  {
    var n: nat := n0;
    var sink := new byte[SINK](_ => 0);
    ghost var all := src.data;
    while n > 0
      invariant n <= n0 && n0 - n <= |all| && src.data == all[n0 - n..]
      invariant old(src.Reliable()) ==> src.Reliable()
    {
      var k := Min(n, SINK);
      error := ReadExact(src, sink, k);
      if error.Some? {
        return;
      }
      assert all[n0 - n..][k..] == all[n0 - n + k..];
      n := n - k;
    }
    return None;
  }

  /** A prefix being read: `n` so far from `i` further bytes, and whether more follow. */
  ghost predicate PrefixAt(s: bytes, rest: bytes, isData: bool, n: nat, i: nat, more: bool)
  {
    && s != [] && 0 <= i <= 2 && i < |s| && rest == s[i + 1..]
    && if !more then FrontPrefix(s) == Ok(Prefix(isData, n, i + 1))
       else
         && isData == (s[0] >= 0x80) && s[0] % 128 >= 64
         && (i == 0 ==> n == s[0] % 64)
         && (i == 1 ==> n == (s[0] as int) % 64 * 128 + s[1] % 128 && s[1] >= 128)
         && (i == 2 ==> FrontPrefix(s) == Err(InvalidData))
  }

  /** The loop over the bytes of a prefix. */
  method ReadPrefix(src: Source, b0: byte, ghost s: bytes) returns (r: Result<Prefix, Error>)
    requires s != [] && s[0] == b0 && src.data == s[1..]
    modifies src
    ensures old(src.Reliable()) ==> r != Err(Io) && src.Reliable()
    ensures r == Err(Io) || r == FrontPrefix(s)
    ensures r.Ok? ==> src.data == s[r.value.used..]
  {
    var isData := b0 >= 0x80;
    var more := b0 % 128 >= 64;
    var n: nat := b0 % 64;
    var i: nat := 0;
    while more
      invariant PrefixAt(s, src.data, isData, n, i, more)
      invariant old(src.Reliable()) ==> src.Reliable()
      decreases 2 - i, more
    {
      if i >= 2 {
        return Err(InvalidData);
      }
      var b := ReadByte(src);
      if b.Err? {
        return Err(b.error);
      }
      if b.value.None? {
        return Err(UnexpectedEof);
      }
      more := b.value.value >= 0x80;
      n := n * 128 + b.value.value % 128;
      i := i + 1;
    }
    return Ok(Prefix(isData, n, i + 1));
  }

  lemma NextDataStep(s: bytes, cap: nat)
    ensures NextData(s, cap)
         == if s == [] then Ok(CleanEof)
            else
              var p := FrontPrefix(s);
              if p.Err? then Err(p.error)
              else
                var body, n := s[p.value.used..], p.value.n;
                if |body| < n then Err(UnexpectedEof)
                else if p.value.isData then Ok(Chunk(body[..if n <= cap then n else cap], body[n..]))
                else NextData(body[n..], cap)
  {
  }

  lemma Dropped(s: bytes, take: nat, n: nat)
    requires take <= n <= |s|
    ensures s[take..][n - take..] == s[n..]
  {
  }

  /** `read_data`: the next data chunk into `p`, skipping padding; `None` is a clean end. */
  method ReadData(src: Source, p: array<byte>) returns (r: Result<Option<nat>, Error>)
    modifies src, p
    ensures old(src.Reliable()) ==> r != Err(Io) && src.Reliable()
    ensures r == Err(Io) ||
            match NextData(old(src.data), p.Length)
            case Err(e) => r == Err(e)
            case Ok(CleanEof) => r == Ok(None) && src.data == [] && p[..] == old(p[..])
            case Ok(Chunk(data, rest)) =>
              r == Ok(Some(|data|)) && src.data == rest && p[..] == Spliced(old(p[..]), 0, data)
  {
    hide *;
    while true
      invariant NextData(src.data, p.Length) == NextData(old(src.data), p.Length) && p[..] == old(p[..])
      invariant old(src.Reliable()) ==> src.Reliable()
      decreases |src.data|
    {
      ghost var s := src.data;
      NextDataStep(s, p.Length);
      var b := ReadByte(src);
      if b.Err? {
        return Err(b.error);
      }
      if b.value.None? {
        return Ok(None);
      }
      var prefix := ReadPrefix(src, b.value.value, s);
      if prefix.Err? {
        return Err(prefix.error);
      }
      var n := prefix.value.n;
      ghost var body := src.data;
      if prefix.value.isData {
        var take := if n <= p.Length then n else p.Length;
        var error := ReadExact(src, p, take);
        if error.Some? {
          return Err(error.value);
        }
        error := Discard(src, n - take);
        if error.Some? {
          return Err(error.value);
        }
        Dropped(body, take, n);
        return Ok(Some(take));
      }
      var error := Discard(src, n);
      if error.Some? {
        return Err(error.value);
      }
    }
  }

  // ---- Streams written chunk by chunk ----

  datatype Item = Data(data: bytes) | Pad(n: nat)

  ghost predicate Encodable(items: seq<Item>) {
    forall i :: 0 <= i < |items| ==> items[i].Data? ==> |items[i].data| < DATA_LIMIT
  }

  function Wire(items: seq<Item>): bytes
    requires Encodable(items)
  {
    if items == [] then []
    else (match items[0] case Data(d) => EncodeData(d).value case Pad(n) => Padding(n)) + Wire(items[1..])
  }

  function Datas(items: seq<Item>): seq<bytes> {
    if items == [] then []
    else (match items[0] case Data(d) => [d] case Pad(_) => []) + Datas(items[1..])
  }

  /** What reads into buffers of the given sizes find, one after another. */
  function Reads(s: bytes, caps: seq<nat>): seq<Result<Found, Error>>
    decreases |caps|
  {
    if caps == [] then []
    else
      var r := NextData(s, caps[0]);
      [r] + match r
            case Err(_) => []
            case Ok(CleanEof) => Reads([], caps[1..])
            case Ok(Chunk(_, rest)) => Reads(rest, caps[1..])
  }

  /** The prefix of a chunk parses to its length, whatever follows. */
  lemma PrefixParses(n: nat, after: bytes)
    requires n < DATA_LIMIT
    ensures var p := DataPrefix(n).value; p != [] && FrontPrefix(p + after) == Ok(Prefix(true, n, |p|))
  {
    hide DataPrefix, FrontPrefix;
    PrefixBytes(n);
    if n < 64 {
      OneByte(n, after);
    } else if n < 0x2000 {
      TwoBytes(n / 128, n % 128, after);
    } else {
      SevenBits(n);
      ThreeBytes(n / 0x4000, n / 128 % 128, n % 128, after);
    }
  }

  /** The shape of a prefix: the top bit says data, the next one and then the top bits of the
      bytes that follow say whether there is more, and the rest is the length, high bits
      first, in as few bytes as it takes. */
  lemma PrefixShape(n: nat)
    requires n < DATA_LIMIT
    ensures var p := DataPrefix(n).value;
            && |p| == (if n < 64 then 1 else if n < 8192 then 2 else 3)
            && p[0] / 128 == 1 && p[0] / 64 % 2 == (if |p| > 1 then 1 else 0)
            && (|p| > 1 ==> p[1] / 128 == (if |p| > 2 then 1 else 0)) && (|p| > 2 ==> p[2] < 128)
            && var top: nat := p[0] % 64;
               n == if |p| == 1 then top else if |p| == 2 then top * 128 + p[1] % 128
                    else (top * 128 + p[1] % 128) * 128 + p[2] % 128
  {
    SevenBits(n);
  }

  /** Any prefix, minimal or not, data or padding, is read by the same rule; a fourth byte is
      refused, and an end inside a prefix is an unexpected one. */
  lemma PrefixRule(top: bool, a: nat, b: nat, c: nat, after: bytes)
    requires a < 64 && b < 128 && c < 128
    ensures var t := if top then 0x80 else 0;
            && FrontPrefix([t + a] + after) == Ok(Prefix(top, a, 1))
            && FrontPrefix([t + 0x40 + a, b] + after) == Ok(Prefix(top, a * 128 + b, 2))
            && FrontPrefix([t + 0x40 + a, 0x80 + b, c] + after) == Ok(Prefix(top, (a * 128 + b) * 128 + c, 3))
            && FrontPrefix([t + 0x40 + a, 0x80 + b, 0x80 + c] + after) == Err(InvalidData)
            && FrontPrefix([t + 0x40 + a]) == Err(UnexpectedEof)
            && FrontPrefix([t + 0x40 + a, 0x80 + b]) == Err(UnexpectedEof)
  {
    var t := if top then 0x80 else 0;
    assert ([t + a] + after)[0] == t + a;
    var two, three, four := [t + 0x40 + a, b] + after, [t + 0x40 + a, 0x80 + b, c] + after,
                            [t + 0x40 + a, 0x80 + b, 0x80 + c] + after;
    assert two[0] == t + 0x40 + a && two[1] == b;
    assert three[0] == t + 0x40 + a && three[1] == 0x80 + b && three[2] == c;
    assert four[0] == t + 0x40 + a && four[1] == 0x80 + b && four[2] == 0x80 + c;
  }

  lemma OneByte(n: nat, after: bytes)
    requires n < 64
    ensures FrontPrefix([0x80 + n] + after) == Ok(Prefix(true, n, 1))
  {
  }

  lemma TwoBytes(a: nat, b: nat, after: bytes)
    requires a < 64 && b < 128
    ensures FrontPrefix([0xC0 + a, b] + after) == Ok(Prefix(true, a * 128 + b, 2))
  {
    var s := [0xC0 + a, b] + after;
    assert s[0] == 0xC0 + a && s[1] == b;
  }

  lemma ThreeBytes(a: nat, b: nat, c: nat, after: bytes)
    requires a < 64 && b < 128 && c < 128
    ensures FrontPrefix([0xC0 + a, 0x80 + b, c] + after) == Ok(Prefix(true, (a * 128 + b) * 128 + c, 3))
  {
    var s := [0xC0 + a, 0x80 + b, c] + after;
    assert s[0] == 0xC0 + a && s[1] == 0x80 + b && s[2] == c;
  }

  lemma PrefixBytes(n: nat)
    requires n < DATA_LIMIT
    ensures var p := DataPrefix(n).value;
            if n < 64 then p == [0x80 + n]
            else if n < 0x2000 then p == [0xC0 + n / 128, n % 128]
            else p == [0xC0 + n / 0x4000, 0x80 + n / 128 % 128, n % 128]
  {
  }

  lemma SevenBits(n: nat)
    ensures n == n / 128 * 128 + n % 128 && n / 128 == n / 0x4000 * 128 + n / 128 % 128
  {
    assert n / 0x4000 == n / 128 / 128;
  }

  lemma DataIsRead(d: bytes, after: bytes, cap: nat)
    requires |d| < DATA_LIMIT
    ensures NextData(EncodeData(d).value + after, cap) == Ok(Chunk(d[..Min(|d|, cap)], after))
  {
    var p := DataPrefix(|d|).value;
    var s := EncodeData(d).value + after;
    PrefixParses(|d|, d + after);
    assert s == p + (d + after);
    assert s[|p|..] == d + after;
    assert (d + after)[..Min(|d|, cap)] == d[..Min(|d|, cap)] && (d + after)[|d|..] == after;
  }

  lemma ChunkIsSkipped(p: nat, after: bytes, cap: nat)
    requires 0 < p <= SINK
    ensures NextData(PaddingChunk(p) + after, cap) == NextData(after, cap)
  {
    var s := PaddingChunk(p) + after;
    var used := if p <= 64 then 1 else 2;
    PaddingPrefix(p, after);
    hide FrontPrefix, PaddingChunk;
    assert s[used..][p - used..] == after;
  }

  lemma PaddingPrefix(p: nat, after: bytes)
    requires 0 < p <= SINK
    ensures var used := if p <= 64 then 1 else 2;
            FrontPrefix(PaddingChunk(p) + after) == Ok(Prefix(false, p - used, used))
  {
  }

  lemma {:induction false} PaddingIsSkipped(n: nat, after: bytes, cap: nat)
    ensures NextData(Padding(n) + after, cap) == NextData(after, cap)
  {
    hide Padding, PaddingChunk, NextData;
    if n == 0 {
      EmptyPadding();
      assert [] + after == after;
    } else {
      var p := Min(n, SINK);
      PaddingIsSkipped(n - p, after, cap);
      ChunkIsSkipped(p, Padding(n - p) + after, cap);
      PaddingStep(n);
      Prepended(PaddingChunk(p), Padding(n - p), after);
    }
  }

  /** What reads of the written data find: each chunk cut to the reader's buffer, then clean
      ends. */
  function Expected(items: seq<Item>, caps: seq<nat>): seq<Result<Found, Error>>
    requires Encodable(items)
    decreases |caps|, |items|
  {
    if caps == [] then []
    else if items == [] then [Ok(CleanEof)] + Expected([], caps[1..])
    else
      match items[0]
      case Pad(_) => Expected(items[1..], caps)
      case Data(d) => [Ok(Chunk(d[..Min(|d|, caps[0])], Wire(items[1..])))] + Expected(items[1..], caps[1..])
  }

  /** Reading back any interleaving of data and padding. */
  lemma {:induction false} ChunksAreRead(items: seq<Item>, caps: seq<nat>)
    requires Encodable(items)
    ensures Reads(Wire(items), caps) == Expected(items, caps)
    decreases |caps|, |items|
  {
    hide NextData, EncodeData, Padding;
    if caps != [] {
      if items == [] {
        EmptyIsEof(caps[0]);
        ChunksAreRead([], caps[1..]);
      } else {
        match items[0]
        case Pad(n) =>
          PaddingIsSkipped(n, Wire(items[1..]), caps[0]);
          ChunksAreRead(items[1..], caps);
        case Data(d) =>
          DataIsRead(d, Wire(items[1..]), caps[0]);
          ChunksAreRead(items[1..], caps[1..]);
      }
    }
  }

  lemma EmptyIsEof(cap: nat)
    ensures NextData([], cap) == Ok(CleanEof)
  {
  }

  /** The answer to read `k`: the `k`-th chunk cut to the reader's buffer, or a clean end. */
  ghost predicate IsAnswer(r: Result<Found, Error>, datas: seq<bytes>, k: nat, cap: nat) {
    && r.Ok?
    && if k < |datas| then r.value.Chunk? && r.value.data == datas[k][..Min(|datas[k]|, cap)]
       else r.value.CleanEof?
  }

  /** With enough reads, the chunks found are the data written. */
  lemma {:induction false} ExpectedIsData(items: seq<Item>, caps: seq<nat>)
    requires Encodable(items)
    ensures |Expected(items, caps)| == |caps|
    ensures forall k :: 0 <= k < |caps| ==> IsAnswer(Expected(items, caps)[k], Datas(items), k, caps[k])
    decreases |caps|, |items|
  {
    if caps != [] {
      if items == [] {
        ExpectedIsData([], caps[1..]);
        Shifted(Expected([], caps), Expected([], caps[1..]), [], [], caps);
      } else if items[0].Pad? {
        ExpectedIsData(items[1..], caps);
        assert [] + Datas(items[1..]) == Datas(items[1..]);
      } else {
        ExpectedIsData(items[1..], caps[1..]);
        Shifted(Expected(items, caps), Expected(items[1..], caps[1..]), Datas(items), Datas(items[1..]), caps);
      }
    }
  }

  /** One answer in front of the answers about the chunks after it. */
  lemma Shifted(rs: seq<Result<Found, Error>>, rest: seq<Result<Found, Error>>, datas: seq<bytes>,
                later: seq<bytes>, caps: seq<nat>)
    requires caps != [] && |rs| == |caps| && rest == rs[1..]
    requires if datas == [] then later == [] else later == datas[1..]
    requires IsAnswer(rs[0], datas, 0, caps[0])
    requires forall k :: 0 <= k < |rest| ==> IsAnswer(rest[k], later, k, caps[1..][k])
    ensures forall k :: 0 <= k < |caps| ==> IsAnswer(rs[k], datas, k, caps[k])
  {
    forall k | 0 <= k < |caps| ensures IsAnswer(rs[k], datas, k, caps[k]) {
      if k > 0 {
        assert IsAnswer(rest[k - 1], later, k - 1, caps[1..][k - 1]);
      }
    }
  }

  /** A stream that ends inside a data chunk is never taken for a clean end. */
  lemma Truncated(d: bytes, k: nat, cap: nat)
    requires |d| < DATA_LIMIT && 0 < k < |EncodeData(d).value|
    ensures NextData(EncodeData(d).value[..k], cap) == Err(UnexpectedEof)
  {
    var p := DataPrefix(|d|).value;
    var s := EncodeData(d).value[..k];
    assert forall i :: 0 <= i < k && i < |p| ==> s[i] == p[i];
    if |p| <= k {
      PrefixParses(|d|, d[..k - |p|]);
      assert s == p + d[..k - |p|];
    }
  }
}
