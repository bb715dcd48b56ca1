/** The objects of the obfs4 data path, updated in place: the FIFO byte buffer and the frame
    encoder and decoder that step their nonce, mask stream and pending length. */
module Obfs4Stream {
  import opened Words
  import opened Wrappers
  import F = Obfs4Framing

  class Buf {
    var data: seq<byte>
    var start: nat

    ghost predicate Valid()
      reads this
    {
      start <= |data|
    }

    /** The bytes still to be read. */
    function Contents(): seq<byte>
      requires Valid()
      reads this
    {
      data[start..]
    }

    constructor ()
      ensures Valid() && Contents() == []
    {
      data, start := [], 0;
    }

    /** Drops what has been read once it is at least half of the storage. */
    method Extend(bytes: seq<byte>)
      requires Valid()
      modifies this
      ensures Valid() && Contents() == old(Contents()) + bytes
    {
      if start > 0 && start >= |data| / 2 {
        data := data[start..];
        start := 0;
      }
      data := data + bytes;
    }

    method Consume(n: nat)
      requires Valid() && n <= |Contents()|
      modifies this
      ensures Valid() && Contents() == old(Contents())[n..]
    {
      start := start + n;
      if start == |data| {
        data, start := [], 0;
      }
    }

    /** As many bytes as there are and the caller has room for. */
    method ReadInto(out: array<byte>) returns (n: nat)
      requires Valid()
      modifies this, out
      ensures Valid() && n == Min(out.Length, |old(Contents())|)
      ensures out[..n] == old(Contents())[..n] && out[n..] == old(out[..])[n..]
      ensures Contents() == old(Contents())[n..]
    {
      n := Min(out.Length, |Contents()|);
      forall i | 0 <= i < n {
        out[i] := data[start + i];
      }
      assert out[..n] == Contents()[..n];
      Consume(n);
    }

    method Clear()
      modifies this
      ensures Valid() && Contents() == []
    {
      data, start := [], 0;
    }
  }

  class Encoder {
    const keys: F.Keys
    var counter: F.u64
    var blocks: nat

    function State(): F.Encoder
      reads this
    {
      F.Encoder(counter, blocks)
    }

    constructor (keys: F.Keys)
      ensures State() == F.NEW_ENCODER && this.keys == keys
    {
      this.keys, counter, blocks := keys, 1, 0;
    }

    /** `out` grows by the next frame of this encoder, unless it refuses. */
    method Encode(payload: seq<byte>, out: Buf) returns (error: Option<F.Error>)
      requires out.Valid()
      modifies this, out
      ensures out.Valid() && State() == F.Encode(keys, old(State()), payload).e
      ensures error == if |payload| > 1430 then Some(F.InvalidPayloadLength)
                       else if old(counter) == 0 then Some(F.NonceCounterWrapped) else None
      ensures match F.Encode(keys, old(State()), payload)
              case Frame(_, bytes) => error == None && out.Contents() == old(out.Contents()) + bytes
              case Failed(_, e) => error == Some(e) && out.Contents() == old(out.Contents())
    {
      if |payload| > F.MAXIMUM_FRAME_PAYLOAD_LENGTH {
        return Some(F.InvalidPayloadLength);
      }
      if counter == 0 {
        return Some(F.NonceCounterWrapped);
      }
      var nonce := counter;
      counter := F.Increment(counter);
      var sealed := keys.seal(nonce, payload);
      var mask := keys.mask(blocks);
      blocks := blocks + 1;
      var length := F.Mask(|sealed| % 0x1_0000, mask);
      ghost var before := out.Contents();
      out.Extend(F.Be16(length));
      out.Extend(sealed);
      assert before + F.Be16(length) + sealed == before + (F.Be16(length) + sealed);
      return None;
    }
  }

  class Decoder {
    const keys: F.Keys
    var counter: F.u64
    var blocks: nat
    var nextNonce: F.u64
    var nextLength: u16
    var nextLengthInvalid: bool

    function State(): F.Decoder
      reads this
    {
      F.Decoder(counter, blocks, nextNonce, nextLength, nextLengthInvalid)
    }

    constructor (keys: F.Keys)
      ensures State() == F.NEW_DECODER && this.keys == keys
    {
      this.keys, counter, blocks, nextNonce, nextLength, nextLengthInvalid := keys, 1, 0, 0, 0, false;
    }

    /** Takes from `frames` what the next step of this decoder needs, if it has all of it. */
    method Decode(frames: Buf, decoy: u16) returns (outcome: F.Outcome)
      requires frames.Valid() && F.MIN_FRAME_LENGTH <= decoy <= F.MAX_FRAME_LENGTH
      modifies this, frames
      ensures frames.Valid()
      ensures F.Decoded(State(), frames.Contents(), outcome)
           == F.Decode(keys, old(State()), old(frames.Contents()), decoy)
    {
      hide F.Mask;
      if nextLength == 0 {
        if |frames.Contents()| < F.LENGTH_LENGTH {
          return F.Again;
        }
        var obfs := F.FromBe16(frames.Contents()[..2]);
        frames.Consume(F.LENGTH_LENGTH);
        if counter == 0 {
          return F.Fatal(F.NonceCounterWrapped);
        }
        nextNonce := counter;
        var length := F.Mask(obfs, keys.mask(blocks));
        blocks := blocks + 1;
        if !(F.MIN_FRAME_LENGTH <= length <= F.MAX_FRAME_LENGTH) {
          nextLengthInvalid := true;
          length := decoy;
        }
        nextLength := length;
      }
      var n := nextLength;
      if |frames.Contents()| < n {
        return F.Again;
      }
      var plain := keys.open(nextNonce, frames.Contents()[..n]);
      frames.Consume(n);
      if plain.None? || nextLengthInvalid {
        return F.Fatal(F.TagMismatch);
      }
      nextLength := 0;
      counter := F.Increment(counter);
      return F.Payload(plain.value);
    }
  }
}
