/** UTF-8 well-formedness as `String::from_utf8` decides it (section 4 of RFC 3629), and how
    it behaves when a string is cut at an ASCII byte. */
module Utf8 {
  import opened Words

  predicate Continuation(b: byte) {
    0x80 <= b < 0xC0
  }

  /** The second byte each lead byte admits. */
  predicate Second(lead: byte, b: byte) {
    Continuation(b) && (lead == 0xE0 ==> b >= 0xA0) && (lead == 0xED ==> b < 0xA0)
    && (lead == 0xF0 ==> b >= 0x90) && (lead == 0xF4 ==> b < 0x90)
  }

  /** Bytes announced by a lead byte; 0 for a byte that cannot lead. */
  function Announced(lead: byte): nat {
    if lead < 0x80 then 1
    else if 0xC2 <= lead < 0xE0 then 2
    else if 0xE0 <= lead < 0xF0 then 3
    else if 0xF0 <= lead < 0xF5 then 4
    else 0
  }

  /** The length of the character at the front; 0 when there is none. */
  function Width(s: seq<byte>): (w: nat)
    ensures w <= |s|
    ensures w > 1 ==> forall i :: 0 <= i < w ==> s[i] >= 0x80
  {
    if s == [] || |s| < Announced(s[0]) then 0
    else if Announced(s[0]) > 1 && !Second(s[0], s[1]) then 0
    else if Announced(s[0]) > 2 && !Continuation(s[2]) then 0
    else if Announced(s[0]) > 3 && !Continuation(s[3]) then 0
    else Announced(s[0])
  }

  predicate Valid(s: seq<byte>) {
    s == [] || (Width(s) > 0 && Valid(s[Width(s)..]))
  }

  /** A byte that is not a continuation ends whatever stood before it. */
  lemma WidthStops(a: seq<byte>, c: byte, b: seq<byte>)
    requires a != [] && c < 0x80
    ensures Width(a + [c] + b) == Width(a)
  {
    var s := a + [c] + b;
    assert s[0] == a[0] && s[|a|] == c;
    assert forall i :: 0 <= i < |a| ==> s[i] == a[i];
  }

  /** Cutting out an ASCII byte leaves two well-formed strings exactly when the whole was one. */
  lemma {:induction false} Cut(a: seq<byte>, c: byte, b: seq<byte>)
    requires c < 0x80
    ensures Valid(a + [c] + b) <==> Valid(a) && Valid(b)
    decreases |a|
  {
    var s := a + [c] + b;
    if a == [] {
      assert s == [c] + b && s[1..] == b;
    } else {
      WidthStops(a, c, b);
      var w := Width(a);
      if w > 0 {
        assert s[w..] == a[w..] + [c] + b;
        Cut(a[w..], c, b);
      }
    }
  }

  lemma WidthPrefix(x: seq<byte>, y: seq<byte>)
    requires x != [] && Width(x) == |x|
    ensures Width(x + y) == |x|
  {
    assert forall i :: 0 <= i < |x| ==> (x + y)[i] == x[i];
  }

  lemma FrontChar(s: seq<byte>)
    requires Width(s) > 0
    ensures Width(s[..Width(s)]) == Width(s)
  {
  }

  /** A character in front of a well-formed string. */
  lemma Prepend(x: seq<byte>, y: seq<byte>)
    requires x != [] && Width(x) == |x| && Valid(y)
    ensures Valid(x + y)
  {
    WidthPrefix(x, y);
    assert (x + y)[|x|..] == y;
  }

  // ---- What it means ----

  /** A Unicode scalar value. */
  type scalar = c: int | 0 <= c < 0x11_0000 && !(0xD800 <= c < 0xE000)

  /** Six bits a byte behind the lead byte, in as few bytes as it takes. */
  function Encoded(c: scalar): (r: seq<byte>)
    ensures r != []
  {
    if c < 0x80 then [c]
    else if c < 0x800 then [0xC0 + c / 64, 0x80 + c % 64]
    else if c < 0x1_0000 then [0xE0 + c / 4096, 0x80 + c / 64 % 64, 0x80 + c % 64]
    else [0xF0 + c / 262144, 0x80 + c / 4096 % 64, 0x80 + c / 64 % 64, 0x80 + c % 64]
  }

  function EncodedAll(cs: seq<scalar>): seq<byte> {
    if cs == [] then [] else Encoded(cs[0]) + EncodedAll(cs[1..])
  }

  lemma EncodedIsOne(c: scalar)
    ensures Width(Encoded(c)) == |Encoded(c)|
  {
    assert c / 64 / 64 == c / 4096 && c / 4096 / 64 == c / 262144;
  }

  /** The value of the character in front. */
  lemma Decoded(s: seq<byte>) returns (c: scalar)
    requires Width(s) > 0
    ensures s[..Width(s)] == Encoded(c)
  {
    var w := Width(s);
    var x: nat := s[0];
    if w == 1 {
      return x;
    }
    var y: nat := s[1] as int - 0x80;
    if w == 2 {
      return (x - 0xC0) * 64 + y;
    }
    var z: nat := s[2] as int - 0x80;
    if w == 3 {
      c := (x - 0xE0) * 4096 + y * 64 + z;
      assert c / 64 == (x - 0xE0) * 64 + y && c / 4096 == c / 64 / 64;
      return;
    }
    var t: nat := s[3] as int - 0x80;
    c := (x - 0xF0) * 262144 + y * 4096 + z * 64 + t;
    assert c / 64 == (x - 0xF0) * 4096 + y * 64 + z;
    assert c / 4096 == c / 64 / 64 == (x - 0xF0) * 64 + y && c / 262144 == c / 4096 / 64;
  }

  lemma {:induction false} EncodedIsValid(cs: seq<scalar>)
    ensures Valid(EncodedAll(cs))
  {
    hide Encoded, Width;
    if cs != [] {
      EncodedIsValid(cs[1..]);
      EncodedIsOne(cs[0]);
      Prepend(Encoded(cs[0]), EncodedAll(cs[1..]));
    }
  }

  lemma {:induction false} ValidIsEncoded(s: seq<byte>) returns (cs: seq<scalar>)
    requires Valid(s)
    ensures s == EncodedAll(cs)
    decreases |s|
  {
    hide Encoded, Width;
    cs := [];
    if s != [] {
      var c := Decoded(s);
      cs := ValidIsEncoded(s[Width(s)..]);
      assert s == s[..Width(s)] + s[Width(s)..] && ([c] + cs)[1..] == cs;
      cs := [c] + cs;
    }
  }

  /** Well-formed is what encodes a list of scalar values. */
  lemma ValidMeans(s: seq<byte>)
    ensures Valid(s) <==> exists cs :: s == EncodedAll(cs)
  {
    if Valid(s) {
      var cs := ValidIsEncoded(s);
    }
    if cs :| s == EncodedAll(cs) {
      EncodedIsValid(cs);
    }
  }
}
