/**
 * `AppCodec` of src/network/io/io.rs: the encoder appends raw bytes to the
 * write buffer; the decoder is resumable and takes at most one frame off the
 * front of the read buffer per call.
 */
module Codec {
  import opened Wrappers
  import opened Bytes
  import opened Utf8
  import opened Frames

  /** The one error the decoder raises: a payload that is not UTF-8 (`InvalidData`). */
  datatype CodecError = InvalidData

  /** What one `decode` call returns, together with the buffer it leaves behind. */
  datatype Decoded = Decoded(result: Result<Option<Data>, CodecError>, rest: seq<byte>)

  /** `encode`: append `item` to `dst`; it never fails. */
  function Encode(item: seq<byte>, dst: seq<byte>): (r: Result<seq<byte>, CodecError>)
    ensures r.Ok?
    ensures |r.value| == |dst| + |item|
    ensures r.value[..|dst|] == dst && r.value[|dst|..] == item
  {
    Ok(dst + item)
  }

  /** Payload length announced by a buffered header. */
  function LengthField(src: seq<byte>): nat
    requires |src| >= HeaderLen
  {
    FromLeBytes32(src[..4])
  }

  /** The buffer holds a header and the whole payload it announces. */
  predicate FrameComplete(src: seq<byte>) {
    |src| >= HeaderLen && |src| >= HeaderLen + LengthField(src)
  }

  /**
   * `decode`. Until a whole frame is buffered it answers `Ok(None)` and takes
   * nothing. Then it takes the whole frame off the buffer and only afterwards
   * checks the payload, so a bad payload is consumed as well.
   */
  function Decode(src: seq<byte>): (out: Decoded)
    ensures out.result == Ok(None) <==> !FrameComplete(src)
    ensures out.result == Ok(None) ==> out.rest == src
    ensures out.result != Ok(None) ==>
              |out.rest| == |src| - HeaderLen - LengthField(src) && out.rest == src[|src| - |out.rest|..]
    ensures out.result.Ok? && out.result.value.Some? ==> ToBytes(out.result.value.value) + out.rest == src
    ensures out.result.Err? ==> !ValidUtf8(src[HeaderLen..HeaderLen + LengthField(src)])
  {
    if |src| < HeaderLen then Decoded(Ok(None), src)
    else
      var length := FromLeBytes32(src[..4]);
      var service := FromBeBytes16(src[4..HeaderLen]);
      if |src| < length + HeaderLen then Decoded(Ok(None), src)
      else
        var data := src[HeaderLen..length + HeaderLen];
        var rest := src[length + HeaderLen..];
        if ValidUtf8(data) then
          var d := Data(service, data);
          LeBytes32Inverse(src[..4]);
          BeBytes16Inverse(src[4..HeaderLen]);
          assert ToBytes(d) == src[..length + HeaderLen];
          Decoded(Ok(Some(d)), rest)
        else
          Decoded(Err(InvalidData), rest)
  }

  /** Round trip: a serialised frame decodes to itself and leaves what follows it. */
  lemma DecodeRoundTrip(d: Data, rest: seq<byte>)
    requires Encodable(d)
    ensures Decode(ToBytes(d) + rest) == Decoded(Ok(Some(d)), rest)
  {
  }

  /** Resumability: every strict prefix of a serialised frame asks for more data and takes nothing. */
  lemma DecodeStrictPrefix(d: Data, n: nat)
    requires Encodable(d)
    requires n < |ToBytes(d)|
    ensures Decode(ToBytes(d)[..n]) == Decoded(Ok(None), ToBytes(d)[..n])
  {
  }

  /**
   * A one-byte payload 0xFF is not UTF-8: the decoder reports `InvalidData`,
   * yet the seven bytes of the frame are already gone from the buffer.
   */
  lemma InvalidPayloadIsConsumed(rest: seq<byte>)
    ensures Decode([1, 0, 0, 0, 0, 3, 0xFF] + rest) == Decoded(Err(InvalidData), rest)
  {
  }

  /** The serialisation of a run of frames, one after the other. */
  function Wire(frames: seq<Data>): (b: seq<byte>)
    ensures |b| >= HeaderLen * |frames|
  {
    if |frames| == 0 then [] else ToBytes(frames[0]) + Wire(frames[1..])
  }

  /** Writing frames through the encoder, one `to_bytes` after another. */
  function Transmit(dst: seq<byte>, frames: seq<Data>): (b: seq<byte>)
    ensures b == dst + Wire(frames)
    decreases |frames|
  {
    if |frames| == 0 then dst
    else
      assert dst + Wire(frames) == (dst + ToBytes(frames[0])) + Wire(frames[1..]);
      Transmit(Encode(ToBytes(frames[0]), dst).value, frames[1..])
  }

  lemma WireCons(d: Data, frames: seq<Data>)
    ensures Wire([d] + frames) == ToBytes(d) + Wire(frames)
  {
  }

  lemma ConcatAssoc(a: seq<byte>, b: seq<byte>, c: seq<byte>)
    ensures (a + b) + c == a + (b + c)
  {
  }

  /** Dropping one more frame's serialisation from the front of the buffer. */
  lemma BrokenAfter(d: Data, frames: seq<Data>, rest: seq<byte>)
    requires Wire(frames) <= rest
    ensures (ToBytes(d) + rest)[|Wire([d] + frames)|..] == rest[|Wire(frames)|..]
  {
  }

  lemma PrefixCons(h: seq<byte>, a: seq<byte>, b: seq<byte>)
    requires a <= b
    ensures h + a <= h + b
  {
  }

  /** How repeated decoding of a buffer ends: waiting for more bytes, or at an invalid payload. */
  datatype StreamEnd = Pending(rest: seq<byte>) | Broken(rest: seq<byte>)

  datatype Stream = Stream(frames: seq<Data>, end: StreamEnd)

  /**
   * Calling `decode` until it asks for more data or fails. Each frame takes at
   * least six bytes off the buffer, so this terminates and never yields a
   * frame twice.
   */
  function DecodeAll(buf: seq<byte>): (s: Stream)
    ensures Wire(s.frames) <= buf
    ensures forall i | 0 <= i < |s.frames| :: Encodable(s.frames[i])
    ensures s.end.Pending? ==> buf == Wire(s.frames) + s.end.rest && !FrameComplete(s.end.rest)
    ensures s.end.Broken? ==> |s.end.rest| + |Wire(s.frames)| + HeaderLen <= |buf|
    ensures s.end.Broken? ==> Decode(buf[|Wire(s.frames)|..]) == Decoded(Err(InvalidData), s.end.rest)
    decreases |buf|
  {
    var out := Decode(buf);
    match out.result
    case Ok(None) =>
      assert Wire([]) + buf == buf;
      Stream([], Pending(buf))
    case Err(_) => Stream([], Broken(out.rest))
    case Ok(Some(d)) =>
      assert buf == ToBytes(d) + out.rest;
      var tail := DecodeAll(out.rest);
      WireCons(d, tail.frames);
      PrefixCons(ToBytes(d), Wire(tail.frames), out.rest);
      assert tail.end.Pending? ==> buf == (ToBytes(d) + Wire(tail.frames)) + tail.end.rest by {
        if tail.end.Pending? {
          ConcatAssoc(ToBytes(d), Wire(tail.frames), tail.end.rest);
        }
      }
      BrokenAfter(d, tail.frames, out.rest);
      Stream([d] + tail.frames, tail.end)
  }

  /** Every frame repeated decoding yields takes at least a header's worth of the buffer. */
  lemma FramesTakeHeaderBytes(buf: seq<byte>)
    ensures HeaderLen * |DecodeAll(buf).frames| <= |buf|
  {
  }

  /**
   * Stream round trip: serialising encodable frames and following them with
   * bytes that hold no whole frame, repeated decoding gives back exactly those
   * frames and leaves exactly those bytes.
   */
  lemma {:induction false} DecodeAllWire(frames: seq<Data>, tail: seq<byte>)
    requires forall i | 0 <= i < |frames| :: Encodable(frames[i])
    requires !FrameComplete(tail)
    ensures DecodeAll(Wire(frames) + tail) == Stream(frames, Pending(tail))
    decreases |frames|
  {
    if |frames| == 0 {
      assert Wire(frames) + tail == tail;
    } else {
      var d := frames[0];
      assert Wire(frames) + tail == ToBytes(d) + (Wire(frames[1..]) + tail);
      DecodeRoundTrip(d, Wire(frames[1..]) + tail);
      DecodeAllWire(frames[1..], tail);
      assert [d] + frames[1..] == frames;
    }
  }
}
