/** obfs4 frames: a masked length and a sealed payload, written and read in lockstep on a
    nonce counter and a mask stream. */
module Obfs4Framing {
  import opened Words
  import opened Wrappers
  import opened Bits

  const MAXIMUM_SEGMENT_LENGTH: nat := 1448
  const LENGTH_LENGTH: nat := 2
  const SECRETBOX_OVERHEAD: nat := 16
  const FRAME_OVERHEAD: nat := 18
  const MAXIMUM_FRAME_PAYLOAD_LENGTH: nat := 1430
  const MIN_FRAME_LENGTH: nat := 16
  const MAX_FRAME_LENGTH: nat := 1446
  const TWO64: int := 0x1_0000_0000_0000_0000

  type u64 = x: int | 0 <= x < TWO64

  // ---- 16-bit arithmetic of the length field ----

  function Mask(a: u16, m: u16): u16 {
    XorBound(a, m, 16);
    Pow2Of16();
    Xor(a, m, 16)
  }

  lemma MaskTwice(a: u16, m: u16)
    ensures Mask(Mask(a, m), m) == a
  {
    Pow2Of16();
    XorTwice(a, m, 16);
  }

  /** Bit for bit, the field is the sum of length and mask without carry. */
  lemma MaskBits(a: u16, m: u16, i: nat)
    requires i < 16
    ensures Bit(Mask(a, m), i) == (Bit(a, i) + Bit(m, i)) % 2
  {
    hide Bit;
    XorBits(a, m, 16, i);
  }

  /** The field alone says nothing about a length: each value of it comes from exactly one
      mask, and every value from some mask. */
  lemma MaskHides(a: u16, f: u16, m: u16)
    ensures Mask(a, Mask(a, f)) == f
    ensures Mask(a, m) == f <==> m == Mask(a, f)
  {
    hide Xor;
    MaskSwaps(a, f);
    MaskSwaps(a, m);
    MaskSwaps(a, Mask(a, f));
    MaskSwaps(a, Mask(a, m));
    MaskTwice(f, a);
    MaskTwice(m, a);
  }

  lemma MaskSwaps(a: u16, m: u16)
    ensures Mask(a, m) == Mask(m, a)
  {
    XorSymmetric(a, m, 16);
  }

  function Be16(x: u16): (r: seq<byte>)
    ensures |r| == 2
  {
    [x / 256, x % 256]
  }

  function FromBe16(b: seq<byte>): u16
    requires |b| == 2
  {
    b[0] as int * 0x100 + b[1] as int
  }

  lemma Be16RoundTrip(x: u16)
    ensures FromBe16(Be16(x)) == x
  {
  }

  // ---- Keys ----

  datatype Error = TagMismatch | NonceCounterWrapped | InvalidPayloadLength

  /** What both ends derive from the key material: a secretbox keyed and prefixed, taking
      the nonce counter, and the 16-bit masks drawn from the generator's blocks. */
  datatype Keys = Keys(
    seal: (u64, seq<byte>) -> seq<byte>, open: (u64, seq<byte>) -> Option<seq<byte>>, mask: nat -> u16)

  /** All that is assumed of the secretbox: a fixed overhead, and opening undoes sealing. */
  ghost predicate Sound(k: Keys) {
    forall n: u64, p: seq<byte> ::
      |k.seal(n, p)| == |p| + SECRETBOX_OVERHEAD && k.open(n, k.seal(n, p)) == Some(p)
  }

  // ---- Encoder ----

  /** `counter`: the nonce counter, zero once it has wrapped. `blocks`: masks drawn. */
  datatype Encoder = Encoder(counter: u64, blocks: nat)

  datatype Encoded = Frame(e: Encoder, bytes: seq<byte>) | Failed(e: Encoder, error: Error)

  const NEW_ENCODER: Encoder := Encoder(1, 0)

  function Increment(counter: u64): u64 {
    (counter + 1) % TWO64
  }

  function Encode(k: Keys, e: Encoder, payload: seq<byte>): Encoded {
    if |payload| > MAXIMUM_FRAME_PAYLOAD_LENGTH then Failed(e, InvalidPayloadLength)
    else if e.counter == 0 then Failed(e, NonceCounterWrapped)
    else
      var sealed := k.seal(e.counter, payload);
      var length := Mask(|sealed| % 0x1_0000, k.mask(e.blocks));
      Frame(Encoder(Increment(e.counter), e.blocks + 1), Be16(length) + sealed)
  }

  // ---- Decoder ----

  /** `nextLength`: the length read and not yet satisfied, zero if none. `nextNonce`: the
      counter captured with it. */
  datatype Decoder = Decoder(counter: u64, blocks: nat, nextNonce: u64, nextLength: u16, invalid: bool)

  const NEW_DECODER: Decoder := Decoder(1, 0, 0, 0, false)

  datatype Outcome = Again | Payload(data: seq<byte>) | Fatal(error: Error)

  /** State, unread bytes and outcome of one `decode`. */
  datatype Decoded = Decoded(d: Decoder, rest: seq<byte>, outcome: Outcome)

  function ReadLength(k: Keys, d: Decoder, obfs: u16, decoy: u16): Decoder {
    var length := Mask(obfs, k.mask(d.blocks));
    var ok := MIN_FRAME_LENGTH <= length <= MAX_FRAME_LENGTH;
    d.(blocks := d.blocks + 1, nextNonce := d.counter,
       invalid := d.invalid || !ok, nextLength := if ok then length else decoy)
  }

  function ReadFrame(k: Keys, d: Decoder, buf: seq<byte>): Decoded {
    if |buf| < d.nextLength then Decoded(d, buf, Again)
    else
      var rest := buf[d.nextLength..];
      var plain := k.open(d.nextNonce, buf[..d.nextLength]);
      if plain.Some? && !d.invalid
      then Decoded(d.(nextLength := 0, counter := Increment(d.counter)), rest, Payload(plain.value))
      else Decoded(d, rest, Fatal(TagMismatch))
  }

  /** `decoy`: the random length waited for after an out-of-range one. */
  function Decode(k: Keys, d: Decoder, buf: seq<byte>, decoy: u16): Decoded {
    if d.nextLength != 0 then ReadFrame(k, d, buf)
    else if |buf| < LENGTH_LENGTH then Decoded(d, buf, Again)
    else if d.counter == 0 then Decoded(d, buf[2..], Fatal(NonceCounterWrapped))
    else ReadFrame(k, ReadLength(k, d, FromBe16(buf[..2]), decoy), buf[2..])
  }

  // ---- What a sender puts on the wire ----

  predicate Payloads(ps: seq<seq<byte>>) {
    |ps| < TWO64 - 1 && forall i :: 0 <= i < |ps| ==> |ps[i]| <= MAXIMUM_FRAME_PAYLOAD_LENGTH
  }

  /** Frame `i` of a connection. */
  function FrameAt(k: Keys, i: nat, payload: seq<byte>): seq<byte>
    requires i < TWO64 - 1
  {
    var sealed := k.seal(i + 1, payload);
    Be16(Mask(|sealed| % 0x1_0000, k.mask(i))) + sealed
  }

  /** The frames of `ps`, the first being frame `from` of the connection. */
  function WireFrom(k: Keys, from: nat, ps: seq<seq<byte>>): seq<byte>
    requires from + |ps| < TWO64
    decreases |ps|
  {
    if ps == [] then [] else FrameAt(k, from, ps[0]) + WireFrom(k, from + 1, ps[1..])
  }

  /** The encoder's state after `n` frames. */
  function EncoderAt(n: nat): Encoder
    requires n < TWO64
  {
    Encoder((n + 1) % TWO64, n)
  }

  /** Encoding a payload from the `n`th state writes frame `n`; the nonce runs out exactly
      when 2^64 - 1 frames have been written. */
  lemma EncodeStep(k: Keys, n: nat, payload: seq<byte>)
    requires n < TWO64 && |payload| <= MAXIMUM_FRAME_PAYLOAD_LENGTH
    ensures n < TWO64 - 1 ==> Encode(k, EncoderAt(n), payload) == Frame(EncoderAt(n + 1), FrameAt(k, n, payload))
    ensures n == TWO64 - 1 ==> Encode(k, EncoderAt(n), payload) == Failed(EncoderAt(n), NonceCounterWrapped)
  {
    hide Mask, Be16;
  }

  /** The two bytes before the sealed ones are, high byte first, the length of those masked
      bit by bit with the next mask. */
  lemma FieldOnWire(k: Keys, n: nat, payload: seq<byte>, i: nat)
    requires Sound(k) && n < TWO64 - 1 && |payload| <= MAXIMUM_FRAME_PAYLOAD_LENGTH && i < 16
    ensures var bytes := FrameAt(k, n, payload);
            && |bytes| == |payload| + FRAME_OVERHEAD && bytes[2..] == k.seal(n + 1, payload)
            && Bit(bytes[0] as int * 256 + bytes[1] as int, i)
               == (Bit(|payload| + SECRETBOX_OVERHEAD, i) + Bit(k.mask(n), i)) % 2
  {
    hide Bit, Mask;
    var sealed := k.seal(n + 1, payload);
    MaskBits(|sealed|, k.mask(n), i);
    BytesOf(Mask(|sealed|, k.mask(n)));
  }

  lemma BytesOf(x: u16)
    ensures Be16(x)[0] as int * 256 + Be16(x)[1] as int == x
  {
  }

  function Be32(x: u32): (r: seq<byte>)
    ensures |r| == 4
  {
    [x / 0x100_0000, x / 0x1_0000 % 256, x / 0x100 % 256, x % 256]
  }

  lemma Be32Injective(x: u32, y: u32)
    requires Be32(x) == Be32(y)
    ensures x == y
  {
    var a, b := Be32(x), Be32(y);
    assert a[0] == b[0] && a[1] == b[1] && a[2] == b[2] && a[3] == b[3];
    Quotients(x);
    Quotients(y);
    Digits(x / 0x1_0000, y / 0x1_0000);
    Digits(x / 0x100, y / 0x100);
    Digits(x, y);
  }

  lemma Quotients(x: nat)
    ensures x / 0x1_0000 / 256 == x / 0x100_0000 && x / 0x100 / 256 == x / 0x1_0000
  {
  }

  lemma Digits(a: nat, b: nat)
    requires a / 256 == b / 256 && a % 256 == b % 256
    ensures a == b
  {
  }

  /** The nonce: a fixed prefix and the big-endian 64-bit counter. */
  function NonceBytes(prefix: seq<byte>, counter: u64): seq<byte> {
    prefix + (Be32(counter / TWO32) + Be32(counter % TWO32))
  }

  lemma NonceInjective(prefix: seq<byte>, x: u64, y: u64)
    requires NonceBytes(prefix, x) == NonceBytes(prefix, y)
    ensures x == y
  {
    var a, b := Be32(x / TWO32) + Be32(x % TWO32), Be32(y / TWO32) + Be32(y % TWO32);
    assert NonceBytes(prefix, x)[|prefix|..] == a && NonceBytes(prefix, y)[|prefix|..] == b;
    assert a[..4] == Be32(x / TWO32) && b[..4] == Be32(y / TWO32);
    assert a[4..] == Be32(x % TWO32) && b[4..] == Be32(y % TWO32);
    hide Be32;
    Be32Injective(x / TWO32, y / TWO32);
    Be32Injective(x % TWO32, y % TWO32);
  }

  /** No two frames of a connection are sealed under the same nonce. */
  lemma NoncesDistinct(prefix: seq<byte>, i: nat, j: nat)
    requires i < j < TWO64 - 1
    ensures NonceBytes(prefix, EncoderAt(i).counter) != NonceBytes(prefix, EncoderAt(j).counter)
  {
    hide NonceBytes;
    var x, y := EncoderAt(i).counter, EncoderAt(j).counter;
    assert x == i + 1 && y == j + 1;
    if NonceBytes(prefix, x) == NonceBytes(prefix, y) {
      NonceInjective(prefix, x, y);
    }
  }
}
