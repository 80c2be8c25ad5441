/** The `Data` record of src/network/io/data.rs and its wire serialisation `to_bytes`. */
module Frames {
  import opened Bytes
  import opened Utf8

  /** The bytes of a Rust `String`: always valid UTF-8. */
  type Utf8Bytes = s: seq<byte> | ValidUtf8(s) witness []

  /** One protocol message: a service id and a text payload. */
  datatype Data = Data(service: u16, data: Utf8Bytes)

  /** 4-byte little-endian payload length, then the 2-byte big-endian service id. */
  const HeaderLen: nat := 6

  /** The length field describes the payload truthfully only below 2^32 bytes. */
  predicate Encodable(d: Data) {
    |d.data| <= U32Max
  }

  /**
   * `to_bytes`: header then payload. The length field holds `len as u32`, so
   * it is the payload length modulo 2^32.
   */
  function ToBytes(d: Data): (b: seq<byte>)
    ensures |b| == HeaderLen + |d.data|
    ensures FromLeBytes32(b[..4]) == |d.data| % 0x1_0000_0000
    ensures FromBeBytes16(b[4..HeaderLen]) == d.service
    ensures b[HeaderLen..] == d.data
  {
    var header := LeBytes32(TruncateU32(|d.data|)) + BeBytes16(d.service);
    assert header[..4] == LeBytes32(TruncateU32(|d.data|));
    assert header[4..] == BeBytes16(d.service);
    header + d.data
  }

  /** Below 2^32 bytes the length field is the payload length; above, it is not. */
  lemma LengthFieldExact(d: Data)
    ensures FromLeBytes32(ToBytes(d)[..4]) == |d.data| <==> Encodable(d)
  {
  }

  /** Serialisation loses nothing: equal bytes come from equal frames. */
  lemma ToBytesInjective(d1: Data, d2: Data)
    requires ToBytes(d1) == ToBytes(d2)
    ensures d1 == d2
  {
  }
}
