/**
 * The wire format: a 2-byte big-endian length header followed by the
 * payload. The writer narrows the payload length to a Java `short`; the
 * reader decodes the header as a signed short, so the usable payload
 * length is 0..32767.
 */
module FrameCodec {
  import opened Java
  import opened Wrappers

  const HEADER_SIZE: nat := 2
  const MAX_PAYLOAD: nat := 32767

  /**
   * `ByteBuffer.getShort` on the two header bytes: big-endian, signed.
   * The result is negative exactly when the high bit of the first byte is set.
   */
  function GetShort(hi: byte, lo: byte): (len: int)
    ensures SHORT_MIN <= len <= SHORT_MAX
    ensures len < 0 <==> hi >= 128
    ensures len >= 0 ==> len == 256 * hi as int + lo as int
  {
    ToShort(256 * hi as int + lo as int)
  }

  /** The two header bytes `(byte) (len / 256)` and `(byte) (len & 255)` for a non-negative short. */
  function Header(len: int): (h: seq<byte>)
    requires 0 <= len <= SHORT_MAX
    ensures |h| == HEADER_SIZE
    ensures GetShort(h[0], h[1]) == len
  {
    // For len >= 0, `len & 255` is len % 256 and Java's `/` agrees with Dafny's.
    [ToByte(len / 256), ToByte(len % 256)]
  }

  /** Every header that decodes to a non-negative length is the header written for that length. */
  lemma HeaderOfDecodedLength(hi: byte, lo: byte)
    requires GetShort(hi, lo) >= 0
    ensures Header(GetShort(hi, lo)) == [hi, lo]
  {
  }

  /**
   * `prependLenBytes` as written. `short len = (short) data.length`, then
   * `new byte[len + 2]` (negative size throws), the two header bytes
   * (an index beyond a 0- or 1-byte array throws) and `arraycopy` of
   * `len` payload bytes.
   */
  function PrependLenBytes(data: seq<byte>): (r: Result<seq<byte>, JavaException>)
    ensures r.Success? <==> ToShort(|data|) >= 0
    ensures |data| <= MAX_PAYLOAD ==> r == Success(Header(|data|) + data)
    ensures MAX_PAYLOAD < |data| < 0x1_0000 ==> r.Failure?
    ensures r.Success? ==> |r.value| == ToShort(|data|) + HEADER_SIZE
    ensures r.Success? ==> r.value[HEADER_SIZE..] == data[..ToShort(|data|)]
    ensures r.Success? ==> DecodeFrame(r.value) == Some(data[..ToShort(|data|)])
  {
    var len := ToShort(|data|);
    if len + 2 < 0 then Failure(NegativeArraySizeException)
    else if len < 0 then Failure(ArrayIndexOutOfBoundsException)
    else
      assert len == |data| ==> data[..len] == data;
      var frame := Header(len) + data[..len];
      assert frame[0] == Header(len)[0] && frame[1] == Header(len)[1];
      assert frame[HEADER_SIZE..] == data[..len];
      Success(frame)
  }

  /**
   * The frame a well-behaved peer reads back from `frame` when it arrives
   * whole: the header must decode to a non-negative length equal to the
   * number of bytes that follow it.
   */
  function DecodeFrame(frame: seq<byte>): (r: Option<seq<byte>>)
    ensures r.Some? ==> HEADER_SIZE + |r.value| == |frame| && |r.value| <= MAX_PAYLOAD
    ensures r.Some? ==> r.value == frame[HEADER_SIZE..]
  {
    if |frame| < HEADER_SIZE then None
    else
      var len := GetShort(frame[0], frame[1]);
      if len < 0 || len != |frame| - HEADER_SIZE then None
      else Some(frame[HEADER_SIZE..])
  }

  /**
   * The framing `prependLenBytes` evidently intends: it refuses a payload
   * whose length does not fit in a non-negative short instead of sending
   * a shorter payload than it was given.
   */
  function EncodeFrame(data: seq<byte>): (r: Result<seq<byte>, JavaException>)
    ensures r.Success? <==> |data| <= MAX_PAYLOAD
    ensures r.Success? ==> DecodeFrame(r.value) == Some(data)
    ensures r.Success? ==> |r.value| == |data| + HEADER_SIZE
  {
    if |data| > MAX_PAYLOAD then Failure(IllegalArgumentException)
    else Success(Header(|data|) + data)
  }

  /** Decoding then encoding gives back the frame: every decodable frame is exactly one encoder output. */
  lemma EncodeDecodedFrame(frame: seq<byte>)
    requires DecodeFrame(frame).Some?
    ensures EncodeFrame(DecodeFrame(frame).value) == Success(frame)
  {
    var p := DecodeFrame(frame).value;
    HeaderOfDecodedLength(frame[0], frame[1]);
    assert frame[..HEADER_SIZE] == [frame[0], frame[1]];
    assert frame == frame[..HEADER_SIZE] + p;
  }

  /** Below 65536 bytes the intended framing and the written one agree, failure included. */
  lemma EncodeFrameAgrees(data: seq<byte>)
    requires |data| < 0x1_0000
    ensures EncodeFrame(data) == PrependLenBytes(data) || (EncodeFrame(data).Failure? && PrependLenBytes(data).Failure?)
  {
  }

  /**
   * A payload of 65536 + k bytes, k at most 32767: `(short)` of its length
   * is k, so `prependLenBytes` returns a well-formed frame that carries
   * only the first k bytes (65541 bytes give a 5-byte frame).
   */
  lemma PrependLenBytesTruncates(data: seq<byte>, k: nat)
    requires k <= MAX_PAYLOAD && |data| == 0x1_0000 + k
    ensures PrependLenBytes(data) == Success(Header(k) + data[..k])
    ensures DecodeFrame(PrependLenBytes(data).value) == Some(data[..k])
    ensures DecodeFrame(PrependLenBytes(data).value) != Some(data)
  {
    assert ToShort(|data|) == k;
  }
}
