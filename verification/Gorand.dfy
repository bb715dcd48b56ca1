/** Go's `math/rand` algorithms over any 63-bit source: rejection sampling and permutations. */
module Gorand {
  import opened Words
  import opened Wrappers
  import opened Bits

  const TWO63: int := 0x8000_0000_0000_0000

  type raw63 = x: int | 0 <= x < TWO63

  // ---- Rejection sampling, on values below 2^bits ----

  /** The largest raw value accepted for `n`. */
  function Highest(n: nat, range: nat): int
    requires 0 < n <= range
  {
    range - 1 - range % n
  }

  /** Raw values accepted for `n`: whole multiples of `n` fit below. */
  function Accepted(n: nat, range: nat): (m: nat)
    requires 0 < n <= range
    ensures m <= range
  {
    Highest(n, range) + 1
  }

  /** How many of the first `m` naturals leave remainder `r`. */
  function Count(n: nat, r: nat, m: nat): nat
    requires n > 0
  {
    if m == 0 then 0 else Count(n, r, m - 1) + (if (m - 1) % n == r then 1 else 0)
  }

  lemma CountStep(n: nat, r: nat, base: nat, q: nat, i: nat)
    requires i < n && base == n * q
    ensures Count(n, r, base + i + 1) == Count(n, r, base + i) + (if i == r then 1 else 0)
  {
    RemainderIs(base + i, n, q, i);
  }

  lemma {:induction false} CountBlock(n: nat, r: nat, base: nat, q: nat, m: nat)
    requires 0 < n && r < n && m <= n && base == n * q
    ensures Count(n, r, base + m) == Count(n, r, base) + (if r < m then 1 else 0)
  {
    hide Count;
    if m > 0 {
      CountBlock(n, r, base, q, m - 1);
      CountStep(n, r, base, q, m - 1);
    }
  }

  lemma {:induction false} CountMultiple(n: nat, r: nat, q: nat)
    requires 0 < n && r < n
    ensures Count(n, r, n * q) == q
  {
    if q > 0 {
      hide Count;
      CountMultiple(n, r, q - 1);
      CountBlock(n, r, n * (q - 1), q - 1, n);
      assert n * (q - 1) + n == n * q;
    } else {
      assert n * q == 0;
    }
  }

  /** Every remainder is hit by equally many accepted raw values: no bias at all. */
  lemma Unbiased(n: nat, range: nat, r: nat)
    requires 0 < n <= range && r < n
    ensures Count(n, r, Accepted(n, range)) == range / n
  {
    assert Accepted(n, range) == n * (range / n);
    CountMultiple(n, r, range / n);
  }

  /** At least half of all raw values are accepted. */
  lemma HalfAccepted(n: nat, range: nat)
    requires 0 < n <= range
    ensures 2 * Accepted(n, range) >= range
  {
    var q := range / n;
    assert range == n * q + range % n;
    assert q >= 1;
    Multiple(n, q);
  }

  // ---- The generator ----

  /** `v & (n - 1)` for a power of two is `v % n`. */
  lemma MaskIsRemainder(v: nat, n: nat, bits: nat)
    requires 0 < n < Pow2(bits) && And(n, n - 1, bits) == 0
    ensures And(v, n - 1, bits) == v % n
  {
    var k := AndPredecessor(n, bits);
    AndOnes(v, k, bits);
  }

  lemma Pow2Of31()
    ensures Pow2(31) == TWO31 && Pow2(63) == TWO63
  {
    Pow2Of16();
    Pow2Sum(16, 15);
    assert Pow2(15) == Pow2(16) / 2;
    Pow2Sum(31, 32);
    assert Pow2(32) == 2 * Pow2(31);
  }

  lemma DoubleFactor(x: int, y: int)
    ensures x * (2 * y) == 2 * (x * y)
  {
  }

  lemma {:induction false} Pow2Sum(a: nat, b: nat)
    ensures Pow2(a + b) == Pow2(a) * Pow2(b)
  {
    if b > 0 {
      Pow2Sum(a, b - 1);
      DoubleFactor(Pow2(a), Pow2(b - 1));
    }
  }

  /** A draw and what it leaves of the source. */
  datatype Drawn<+T> = Drawn(result: Option<T>, rest: seq<raw63>)

  /** A raw 63-bit value as `int63` or, narrowed to its top 31 bits, `int31` reads it. */
  function Reading(raw: raw63, range: nat): nat {
    if range == TWO31 then raw / TWO32 else raw
  }

  function Fraction(raw: raw63): (f: real)
    ensures 0.0 <= f < 1.0
  {
    raw as real / TWO63 as real
  }

  /** What rejection sampling returns: the remainder of the first accepted raw value. */
  function FirstAccepted(raws: seq<raw63>, n: nat, range: nat): (r: Drawn<nat>)
    requires 0 < n <= range
    ensures r.result.Some? ==> r.result.value < n
  {
    if raws == [] then Drawn(None, [])
    else if Reading(raws[0], range) <= Highest(n, range) then Drawn(Some(Reading(raws[0], range) % n), raws[1..])
    else FirstAccepted(raws[1..], n, range)
  }

  /** Rejection sampling on a list: all raw values before the one used read as no less than
      the largest multiple of `n` in the range, that one reads as less, and its remainder is
      the answer; without such a value everything is used up. */
  lemma {:induction false} SamplesFirst(raws: seq<raw63>, n: nat, range: nat) returns (i: nat)
    requires 0 < n <= range
    ensures var d := FirstAccepted(raws, n, range);
            && i <= |raws| && (forall j :: 0 <= j < i ==> Reading(raws[j], range) >= range - range % n)
            && if i == |raws| then d == Drawn(None, [])
               else Reading(raws[i], range) < range - range % n
                    && d == Drawn(Some(Reading(raws[i], range) % n), raws[i + 1..])
    decreases |raws|
  {
    hide Reading;
    i := 0;
    if raws != [] && Reading(raws[0], range) > Highest(n, range) {
      var h := SamplesFirst(raws[1..], n, range);
      i := h + 1;
      assert h < |raws| - 1 ==> raws[1..][h + 1..] == raws[i + 1..];
    }
  }

  /** How a raw value is read: all 63 bits, or the top 31. */
  lemma ReadingIs(raw: raw63)
    ensures Reading(raw, TWO63) == raw
    ensures Reading(raw, TWO31) * TWO32 <= raw < (Reading(raw, TWO31) + 1) * TWO32
  {
  }

  lemma FractionIs(raw: raw63)
    ensures Fraction(raw) * TWO63 as real == raw as real
  {
  }

  // ---- Over the raw 63-bit values ----

  /** For how many of the first `m` raw values the sampler answers `r` at once. */
  ghost function Hits(n: nat, r: nat, range: nat, m: nat): nat
    requires 0 < n <= range && m <= TWO63
  {
    if m == 0 then 0
    else Hits(n, r, range, m - 1) + (if FirstAccepted([m - 1], n, range).result == Some(r) then 1 else 0)
  }

  lemma AnswersOne(v: raw63, n: nat, range: nat, r: nat)
    requires 0 < n <= range
    ensures FirstAccepted([v], n, range).result == Some(r)
            <==> Reading(v, range) <= Highest(n, range) && Reading(v, range) % n == r
  {
  }

  /** A 31-bit value is read from 2^32 raw values in a row. */
  lemma {:induction false} NarrowBlock(n: nat, r: nat, u: nat, i: nat)
    requires 0 < n <= TWO31 && u < TWO31 && i <= TWO32
    ensures Hits(n, r, TWO31, u * TWO32 + i)
         == Hits(n, r, TWO31, u * TWO32) + (if u <= Highest(n, TWO31) && u % n == r then i else 0)
    decreases i
  {
    if i > 0 {
      NarrowBlock(n, r, u, i - 1);
      TopBits(u, i - 1);
      AnswersOne(u * TWO32 + i - 1, n, TWO31, r);
    }
  }

  lemma TopBits(u: nat, i: nat)
    requires u < TWO31 && i < TWO32
    ensures u * TWO32 + i < TWO63 && Reading(u * TWO32 + i, TWO31) == u
  {
  }

  lemma {:induction false} NarrowHits(n: nat, r: nat, u: nat)
    requires 0 < n <= TWO31 && u <= TWO31
    ensures Hits(n, r, TWO31, u * TWO32) == TWO32 * Count(n, r, Min(u, Accepted(n, TWO31)))
    decreases u
  {
    if u > 0 {
      NarrowHits(n, r, u - 1);
      NarrowBlock(n, r, u - 1, TWO32);
    }
  }

  lemma {:induction false} WideHits(n: nat, r: nat, m: nat)
    requires 0 < n <= TWO63 && m <= TWO63
    ensures Hits(n, r, TWO63, m) == Count(n, r, Min(m, Accepted(n, TWO63)))
  {
    if m > 0 {
      WideHits(n, r, m - 1);
      AnswersOne(m - 1, n, TWO63, r);
    }
  }

  /** Both samplers are exactly unbiased over the raw 63-bit values: each residue below `n`
      comes from equally many of them. */
  lemma UnbiasedDraws(n: nat, r: nat)
    requires 0 < n && r < n
    ensures n <= TWO31 ==> Hits(n, r, TWO31, TWO63) == TWO32 * (TWO31 / n)
    ensures n <= TWO63 ==> Hits(n, r, TWO63, TWO63) == TWO63 / n
  {
    hide Hits, Count;
    if n <= TWO31 {
      NarrowHits(n, r, TWO31);
      Unbiased(n, TWO31, r);
    }
    if n <= TWO63 {
      WideHits(n, r, TWO63);
      Unbiased(n, TWO63, r);
    }
  }

  /** The range `intn` samples in. */
  function RangeFor(n: nat): nat {
    if n < TWO31 then TWO31 else TWO63
  }

  /** The draws `perm` makes: at index `i`, one of `0..=i`. */
  function Draws(raws: seq<raw63>, n: nat): (r: Drawn<seq<nat>>)
    requires n < TWO63
    ensures r.result.Some? ==> |r.result.value| == n && forall i :: 0 <= i < n ==> r.result.value[i] <= i
  {
    if n == 0 then Drawn(Some([]), raws)
    else
      var before := Draws(raws, n - 1);
      if before.result.None? then before
      else
        var j := FirstAccepted(before.rest, n, RangeFor(n));
        if j.result.None? then Drawn(None, j.rest)
        else Drawn(Some(before.result.value + [j.result.value]), j.rest)
  }

  /** Draw `i` is what the sampler answers for `i + 1` on what the draws before it left. */
  lemma {:induction false} DrawIs(raws: seq<raw63>, n: nat, i: nat)
    requires i < n < TWO63 && Draws(raws, n).result.Some?
    ensures var d, before := Draws(raws, n), Draws(raws, i);
            && before.result == Some(d.result.value[..i]) && Draws(raws, 0).rest == raws
            && FirstAccepted(before.rest, i + 1, if i + 1 < 0x8000_0000 then TWO31 else TWO63)
               == Drawn(Some(d.result.value[i]), Draws(raws, i + 1).rest)
    decreases n
  {
    hide FirstAccepted;
    var last := Draws(raws, n - 1);
    if i < n - 1 {
      DrawIs(raws, n - 1, i);
      assert Draws(raws, n).result.value[..i] == last.result.value[..i];
    } else {
      assert Draws(raws, n).result.value[..i] == last.result.value;
    }
  }

  /** The draws run dry only where the sampler does. */
  lemma {:induction false} DrawsStop(raws: seq<raw63>, n: nat) returns (i: nat)
    requires n < TWO63 && Draws(raws, n).result.None?
    ensures i < n && Draws(raws, i).result.Some?
    ensures FirstAccepted(Draws(raws, i).rest, i + 1, RangeFor(i + 1)).result.None?
  {
    hide FirstAccepted;
    i := n - 1;
    if Draws(raws, n - 1).result.None? {
      i := DrawsStop(raws, n - 1);
    }
  }

  lemma {:induction false} DrawsFail(raws: seq<raw63>, n: nat, k: nat)
    requires k <= n < TWO63 && Draws(raws, k).result.None?
    ensures Draws(raws, n) == Draws(raws, k)
  {
    if k < n {
      DrawsFail(raws, n - 1, k);
    }
  }

  /** `perm` as a function of the source. */
  function Permuted(raws: seq<raw63>, n: nat): Drawn<seq<nat>>
    requires n < TWO63
  {
    var draws := Draws(raws, n);
    Drawn(if draws.result.None? then None else Some(Built(draws.result.value)), draws.rest)
  }

  lemma PermutedStart(raws: seq<raw63>)
    ensures Permuted(raws, 0) == Drawn(Some([]), raws)
  {
  }

  lemma PermutedFails(raws: seq<raw63>, n: nat, k: nat)
    requires k <= n < TWO63 && Permuted(raws, k).result.None?
    ensures Permuted(raws, n) == Permuted(raws, k)
  {
    DrawsFail(raws, n, k);
  }

  lemma PermutedStep(raws: seq<raw63>, n: nat)
    requires n + 1 < TWO63
    ensures var m, j := Permuted(raws, n), FirstAccepted(Permuted(raws, n).rest, n + 1, RangeFor(n + 1));
            if m.result.None? then Permuted(raws, n + 1) == m
            else if j.result.None? then Permuted(raws, n + 1) == Drawn(None, j.rest)
            else Permuted(raws, n + 1) == Drawn(Some(Placed(m.result.value, j.result.value)), j.rest)
  {
    hide FirstAccepted;
    var m, j := Draws(raws, n), FirstAccepted(Permuted(raws, n).rest, n + 1, RangeFor(n + 1));
    if m.result.Some? && j.result.Some? {
      var before := m.result.value;
      var draws := before + [j.result.value];
      assert Draws(raws, n + 1).result == Some(draws);
      assert draws[..n] == before;
    }
  }

  /** The generator over the values its source will give; it stops when they run out. */
  class Rand {
    var source: seq<raw63>

    constructor (source: seq<raw63>)
      ensures this.source == source
    {
      this.source := source;
    }

    static lemma PowerAccepts(n: nat, range: nat, bits: nat)
      requires 0 < n < range && range == Pow2(bits) && And(n, n - 1, bits) == 0
      ensures Highest(n, range) == range - 1
    {
      var k := AndPredecessor(n, bits);
      Pow2Sum(k, bits - k);
      RemainderIs(range, n, Pow2(bits - k), 0);
    }

    method Int31n(n: nat) returns (r: Option<nat>)
      requires 0 < n < TWO31
      modifies this
      ensures Drawn(r, source) == FirstAccepted(old(source), n, TWO31)
    {
      Pow2Of31();
      if And(n, n - 1, 31) == 0 {
        if source == [] {
          return None;
        }
        var v := source[0] / TWO32;
        source := source[1..];
        MaskIsRemainder(v, n, 31);
        PowerAccepts(n, TWO31, 31);
        return Some(And(v, n - 1, 31));
      }
      hide And, Pow2;
      var max := TWO31 - 1 - TWO31 % n;
      while source != []
        invariant FirstAccepted(source, n, TWO31) == FirstAccepted(old(source), n, TWO31)
        decreases |source|
      {
        var v := source[0] / TWO32;
        source := source[1..];
        if v <= max {
          return Some(v % n);
        }
      }
      return None;
    }

    method Int63n(n: nat) returns (r: Option<nat>)
      requires 0 < n < TWO63
      modifies this
      ensures Drawn(r, source) == FirstAccepted(old(source), n, TWO63)
    {
      Pow2Of31();
      if And(n, n - 1, 63) == 0 {
        if source == [] {
          return None;
        }
        var v := source[0];
        source := source[1..];
        MaskIsRemainder(v, n, 63);
        PowerAccepts(n, TWO63, 63);
        return Some(And(v, n - 1, 63));
      }
      hide And, Pow2;
      var max := TWO63 - 1 - TWO63 % n;
      while source != []
        invariant FirstAccepted(source, n, TWO63) == FirstAccepted(old(source), n, TWO63)
        decreases |source|
      {
        var v := source[0];
        source := source[1..];
        if v <= max {
          return Some(v % n);
        }
      }
      return None;
    }

    /** Go's `Intn` for a 64-bit `int`. */
    method Intn(n: nat) returns (r: Option<nat>)
      requires 0 < n < TWO63
      modifies this
      ensures n < 0x8000_0000 ==> Drawn(r, source) == FirstAccepted(old(source), n, TWO31)
      ensures n >= 0x8000_0000 ==> Drawn(r, source) == FirstAccepted(old(source), n, TWO63)
    {
      if n < TWO31 {
        r := Int31n(n);
      } else {
        r := Int63n(n);
      }
    }

    /** A fraction in [0, 1); over reals no draw has to be repeated for rounding up to 1. */
    method Float64() returns (r: Option<real>)
      modifies this
      ensures r == if old(source) == [] then None else Some(Fraction(old(source)[0]))
      ensures source == if old(source) == [] then [] else old(source)[1..]
    {
      if source == [] {
        return None;
      }
      r := Some(source[0] as real / TWO63 as real);
      source := source[1..];
    }

    /** `m[i] = m[j]; m[j] = i` for a drawn `j <= i`, for each `i` in turn. */
    method Perm(n: nat) returns (ok: bool, m: array<nat>)
      requires n < TWO63
      modifies this
      ensures fresh(m) && m.Length == n
      ensures Drawn(if ok then Some(m[..]) else None, source) == Permuted(old(source), n)
    {
      m := new nat[n](_ => 0);
      hide FirstAccepted, Permuted, Draws, Built, IsPermutation, Placed;
      PermutedStart(source);
      for i := 0 to n
        invariant Drawn(Some(m[..i]), source) == Permuted(old(source), i)
      {
        PermutedStep(old(source), i);
        var draw := Intn(i + 1);
        if draw.None? {
          PermutedFails(old(source), n, i + 1);
          return false, m;
        }
        var j := draw.value;
        ghost var before := m[..];
        m[i] := m[j];
        m[j] := i;
        WrittenIsPlaced(before, m[..], i, j);
      }
      assert m[..n] == m[..];
      ok := true;
    }
  }

  // ---- Permutations ----

  /** A list of its own indices, none twice. */
  ghost predicate IsPermutation(s: seq<nat>) {
    && (forall i :: 0 <= i < |s| ==> s[i] < |s|)
    && (forall i, j :: 0 <= i < j < |s| ==> s[i] != s[j])
  }

  /** The next index takes position `j`, and what was there moves to the end. */
  function Placed(s: seq<nat>, j: nat): (r: seq<nat>)
    requires j <= |s|
    ensures |r| == |s| + 1
  {
    if j == |s| then s + [|s|] else s[j := |s|] + [s[j]]
  }

  /** Index `|s|` goes to `j`, what was at `j` to the end, and nothing else moves. */
  lemma PlacedAt(s: seq<nat>, j: nat, i: nat)
    requires j <= |s| && i <= |s|
    ensures Placed(s, j)[i] == if i == j then |s| else if i == |s| then s[j] else s[i]
  {
  }

  lemma WrittenIsPlaced(a: seq<nat>, b: seq<nat>, i: nat, j: nat)
    requires j <= i < |a| && b == a[i := a[j]][j := i]
    ensures b[..i + 1] == Placed(a[..i], j)
  {
  }

  lemma PlacedIsPermutation(s: seq<nat>, j: nat)
    requires IsPermutation(s) && j <= |s|
    ensures IsPermutation(Placed(s, j))
  {
  }

  /** The permutation a run of draws builds; the draw at index `i` is at most `i`. */
  function Built(draws: seq<nat>): (r: seq<nat>)
    requires forall i :: 0 <= i < |draws| ==> draws[i] <= i
    ensures |r| == |draws| && IsPermutation(r)
  {
    if draws == [] then []
    else
      var s := Built(draws[..|draws| - 1]);
      PlacedIsPermutation(s, draws[|draws| - 1]);
      Placed(s, draws[|draws| - 1])
  }

  lemma PlacedInjective(s: seq<nat>, t: seq<nat>, j: nat, k: nat)
    requires IsPermutation(s) && IsPermutation(t) && |s| == |t| && j <= |s| && k <= |t|
    requires Placed(s, j) == Placed(t, k)
    ensures s == t && j == k
  {
    var r := Placed(s, j);
    assert r[j] == |s| && r[k] == |s|;
    assert j == k;
    forall i | 0 <= i < |s| ensures s[i] == t[i] {
      assert r[i] == if i == j then |s| else s[i];
      assert r[|s|] == if j == |s| then |s| else s[j];
    }
  }

  /** Different draws build different permutations. */
  lemma {:induction false} BuiltInjective(a: seq<nat>, b: seq<nat>)
    requires |a| == |b|
    requires forall i :: 0 <= i < |a| ==> a[i] <= i && b[i] <= i
    requires Built(a) == Built(b)
    ensures a == b
  {
    if a != [] {
      var k := |a| - 1;
      PlacedInjective(Built(a[..k]), Built(b[..k]), a[k], b[k]);
      BuiltInjective(a[..k], b[..k]);
      assert a == a[..k] + [a[k]] && b == b[..k] + [b[k]];
    }
  }

  /** Undoing the last placement. */
  lemma Unplace(p: seq<nat>) returns (s: seq<nat>, j: nat)
    requires IsPermutation(p) && p != []
    ensures |s| == |p| - 1 && IsPermutation(s) && j <= |s| && Placed(s, j) == p
  {
    var k := |p| - 1;
    j := LastIndex(p);
    s := if j == k then p[..k] else p[j := p[k]][..k];
    forall i | 0 <= i < k ensures s[i] < k {
      assert s[i] == if i == j then p[k] else p[i];
      assert p[j] == k;
    }
    assert Placed(s, j) == p;
  }

  /** Every permutation of n is built by some draws, so by exactly one run of draws: uniform
      draws make uniform permutations. */
  lemma {:induction false} BuiltSurjective(p: seq<nat>) returns (draws: seq<nat>)
    requires IsPermutation(p)
    ensures |draws| == |p| && (forall i :: 0 <= i < |draws| ==> draws[i] <= i) && Built(draws) == p
    decreases |p|
  {
    if p == [] {
      draws := [];
    } else {
      var s, j := Unplace(p);
      hide IsPermutation, Placed;
      var before := BuiltSurjective(s);
      draws := before + [j];
      assert draws[..|s|] == before;
    }
  }

  /** The position of the largest index in a permutation. */
  lemma LastIndex(p: seq<nat>) returns (j: nat)
    requires IsPermutation(p) && p != []
    ensures j < |p| && p[j] == |p| - 1
  {
    if forall i :: 0 <= i < |p| ==> p[i] != |p| - 1 {
      var values := set i | 0 <= i < |p| :: p[i];
      Distinct(p);
      Below(values, |p| - 1);
      assert false;
    } else {
      j :| 0 <= j < |p| && p[j] == |p| - 1;
    }
  }

  lemma {:induction false} Distinct(s: seq<nat>)
    requires forall i, j :: 0 <= i < j < |s| ==> s[i] != s[j]
    ensures |set i | 0 <= i < |s| :: s[i]| == |s|
  {
    var values := set i | 0 <= i < |s| :: s[i];
    if s != [] {
      var k := |s| - 1;
      var t := s[..k];
      Distinct(t);
      var rest := set i | 0 <= i < |t| :: t[i];
      forall x ensures x in values <==> x in rest || x == s[k] {
        if x in rest {
          var i :| 0 <= i < k && t[i] == x;
          assert s[i] == x;
        }
        if x in values && x != s[k] {
          var i :| 0 <= i < |s| && s[i] == x;
          assert t[i] == x;
        }
      }
      assert values == rest + {s[k]};
      assert s[k] !in rest;
    }
  }

  lemma {:induction false} Below(values: set<nat>, n: nat)
    requires forall x :: x in values ==> x < n
    ensures |values| <= n
  {
    if n == 0 {
      assert values == {};
    } else {
      Below(values - {n - 1}, n - 1);
      if n - 1 in values {
        assert values == (values - {n - 1}) + {n - 1};
      } else {
        assert values == values - {n - 1};
      }
    }
  }
}
