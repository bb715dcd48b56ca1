/** Machine words of the source: bytes, 16- and 32-bit unsigned integers, and the
    wrapping 32-bit arithmetic of sequence numbers and timestamps. */
module Words {
  const TWO31: int := 0x8000_0000
  const TWO32: int := 0x1_0000_0000

  type byte = x: int | 0 <= x < 0x100
  type u16 = x: int | 0 <= x < 0x1_0000
  type u32 = x: int | 0 <= x < 0x1_0000_0000

  function Min(a: int, b: int): (m: int) {
    if a <= b then a else b
  }

  function Max(a: int, b: int): (m: int) {
    if a <= b then b else a
  }

  /** The parts, back to back. */
  function Concat(parts: seq<seq<byte>>): seq<byte> {
    if parts == [] then [] else parts[0] + Concat(parts[1..])
  }

  lemma {:induction false} ConcatAppend(parts: seq<seq<byte>>, last: seq<byte>)
    ensures Concat(parts + [last]) == Concat(parts) + last
  {
    if parts == [] {
      assert parts + [last] == [last];
    } else {
      assert (parts + [last])[1..] == parts[1..] + [last];
      ConcatAppend(parts[1..], last);
    }
  }

  function Zeros(n: nat): (r: seq<byte>)
    ensures |r| == n && forall i :: 0 <= i < n ==> r[i] == 0
  {
    seq(n, _ => 0)
  }

  /** `wrapping_add`, `wrapping_sub` and `as u32` on any integer. */
  function Wrap(x: int): u32 {
    x % TWO32
  }

  /** `as i32` on any integer. */
  function AsI32(x: int): (r: int)
    ensures -TWO31 <= r < TWO31
  {
    if Wrap(x) < TWO31 then Wrap(x) else Wrap(x) - TWO32
  }

  /** `later.wrapping_sub(earlier) as i32`. */
  function TimeDiff(later: u32, earlier: u32): int {
    AsI32(later - earlier)
  }

  function Le16(x: u16): (r: seq<byte>)
    ensures |r| == 2
  {
    [x % 256, x / 256]
  }

  function Le32(x: u32): (r: seq<byte>)
    ensures |r| == 4
  {
    [x % 256, x / 0x100 % 256, x / 0x1_0000 % 256, x / 0x100_0000]
  }

  function FromLe16(b: seq<byte>): u16
    requires |b| == 2
  {
    b[0] as int + 0x100 * b[1] as int
  }

  function FromLe32(b: seq<byte>): u32
    requires |b| == 4
  {
    b[0] as int + 0x100 * b[1] as int + 0x1_0000 * b[2] as int + 0x100_0000 * b[3] as int
  }

  lemma Le16RoundTrip(x: u16)
    ensures FromLe16(Le16(x)) == x
  {
  }

  lemma Le32RoundTrip(x: u32)
    ensures FromLe32(Le32(x)) == x
  {
    assert x == x % 256 + 256 * (x / 0x100);
    assert x / 0x100 == x / 0x100 % 256 + 256 * (x / 0x1_0000);
    assert x / 0x1_0000 == x / 0x1_0000 % 256 + 256 * (x / 0x100_0000);
  }

  lemma FromLe16RoundTrip(b: seq<byte>)
    requires |b| == 2
    ensures Le16(FromLe16(b)) == b
  {
  }

  lemma FromLe32RoundTrip(b: seq<byte>)
    requires |b| == 4
    ensures Le32(FromLe32(b)) == b
  {
    var x := FromLe32(b);
    var b0: int, b1: int, b2: int, b3: int := b[0], b[1], b[2], b[3];
    Digit(b0, b1 + 0x100 * b2 + 0x1_0000 * b3);
    Digit(b1, b2 + 0x100 * b3);
    Digit(b2, b3);
    assert x / 0x1_0000 == x / 0x100 / 0x100 && x / 0x100_0000 == x / 0x1_0000 / 0x100;
    assert Le32(x) == [b[0], b[1], b[2], b[3]];
  }

  lemma Digit(low: int, high: int)
    requires 0 <= low < 256
    ensures (low + 0x100 * high) % 256 == low && (low + 0x100 * high) / 256 == high
  {
  }

  lemma WrapSmall(x: int)
    requires 0 <= x < TWO32
    ensures Wrap(x) == x
  {
  }

  lemma WrapShift(x: int, k: int)
    ensures Wrap(x + TWO32 * k) == Wrap(x)
  {
    assert (x + TWO32 * k) / TWO32 == x / TWO32 + k;
  }

  lemma WrapDifference(x: int, y: int)
    ensures Wrap(Wrap(x) - Wrap(y)) == Wrap(x - y)
  {
    var a, b := x / TWO32, y / TWO32;
    assert Wrap(x) - Wrap(y) == (x - y) + TWO32 * (b - a);
    WrapShift(x - y, b - a);
  }

  lemma WrapSum(x: int, i: int)
    ensures Wrap(Wrap(x) + i) == Wrap(x + i)
  {
    assert Wrap(x) + i == (x + i) + TWO32 * -(x / TWO32);
    WrapShift(x + i, -(x / TWO32));
  }

  lemma AsI32Sum(x: int, y: int)
    ensures AsI32(AsI32(x) + y) == AsI32(x + y)
  {
    WrapSum(x, y);
    if Wrap(x) >= TWO31 {
      WrapShift(Wrap(x) + y, -1);
    }
  }

  lemma AsI32Small(x: int)
    requires -TWO31 <= x < TWO31
    ensures AsI32(x) == x
  {
    if x >= 0 {
      WrapSmall(x);
    } else {
      WrapShift(x, 1);
      WrapSmall(x + TWO32);
    }
  }

  /** Two words less than 2^31 apart are ordered by `TimeDiff` as the integers they
      stand for, on either side of the wrap. */
  lemma TimeDiffIsOffset(x: int, y: int)
    requires -TWO31 <= x - y < TWO31
    ensures TimeDiff(Wrap(x), Wrap(y)) == x - y
  {
    WrapDifference(x, y);
  }

  /** Distance of `sn` above `from`, modulo 2^32. */
  function Offset(sn: u32, from: u32): u32 {
    Wrap(sn - from)
  }

  lemma OffsetStep(sn: u32, from: u32)
    requires sn != from
    ensures Offset(sn, Wrap(from + 1)) == Offset(sn, from) - 1
  {
  }

  lemma OffsetOrder(a: u32, b: u32, from: u32)
    requires Offset(a, from) < TWO31 && Offset(b, from) < TWO31
    ensures TimeDiff(a, b) == Offset(a, from) - Offset(b, from)
    ensures a == b <==> Offset(a, from) == Offset(b, from)
  {
    var da, db := Offset(a, from), Offset(b, from);
    assert from + da == a || from + da == a + TWO32;
    assert from + db == b || from + db == b + TWO32;
  }

  /** Inside a window, the two signed comparisons are one offset test. */
  lemma WindowTest(sn: u32, from: u32, wnd: u32)
    requires 0 < wnd < TWO31
    ensures TimeDiff(sn, from) >= 0 && TimeDiff(sn, Wrap(from + wnd)) < 0 <==> Offset(sn, from) < wnd
  {
    hide Wrap;
    var d := Offset(sn, from);
    WrapSum(sn - from, from);
    WrapSmall(sn);
    WrapSmall(from);
    if d < TWO31 {
      TimeDiffIsOffset(from + d, from);
      TimeDiffIsOffset(from + d, from + wnd);
    }
  }
}
