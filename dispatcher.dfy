/**
 * `handleRequest`: the reply to a request is the request text, then
 * " from ", then the node's name, framed with the length header. The
 * platform charset is taken to be US-ASCII: decoding maps every byte of
 * 128 or more to U+FFFD, and encoding writes '?' for every character it
 * cannot map, so each character is one byte and ASCII text passes through
 * unchanged.
 */
module Dispatcher {
  import opened Java
  import opened Wrappers
  import opened Node
  import opened FrameCodec

  const QUESTION_MARK: byte := 63

  /** " from " in ASCII. */
  const FROM: seq<byte> := [32, 102, 114, 111, 109, 32]

  predicate IsAsciiByte(b: byte) { b < 128 }

  predicate IsAsciiChar(c: char) { c as int < 128 }

  /** `new String(bytes)` under US-ASCII. */
  function DecodeAscii(bytes: seq<byte>): (s: string)
    ensures |s| == |bytes|
    ensures forall i :: 0 <= i < |bytes| && IsAsciiByte(bytes[i]) ==> s[i] as int == bytes[i] as int
    ensures forall i :: 0 <= i < |bytes| && !IsAsciiByte(bytes[i]) ==> s[i] == '�'
  {
    seq(|bytes|, i requires 0 <= i < |bytes| => if IsAsciiByte(bytes[i]) then bytes[i] as int as char else '�')
  }

  /** `String.getBytes()` under US-ASCII. */
  function EncodeAscii(s: string): (bytes: seq<byte>)
    ensures |bytes| == |s|
    ensures forall i :: 0 <= i < |s| && IsAsciiChar(s[i]) ==> bytes[i] as int == s[i] as int
    ensures forall i :: 0 <= i < |s| && !IsAsciiChar(s[i]) ==> bytes[i] == QUESTION_MARK
  {
    seq(|s|, i requires 0 <= i < |s| => if IsAsciiChar(s[i]) then s[i] as int as byte else QUESTION_MARK)
  }

  /** An ASCII request comes back from the decode/encode round trip unchanged. */
  lemma AsciiRoundTrip(bytes: seq<byte>)
    requires forall i :: 0 <= i < |bytes| ==> IsAsciiByte(bytes[i])
    ensures EncodeAscii(DecodeAscii(bytes)) == bytes
  {
  }

  /** `(new String(request) + " from " + node.getNodeName()).getBytes()`. */
  function ResponseBytes(request: seq<byte>, nodeName: string): (r: seq<byte>)
    ensures |r| == |request| + |FROM| + |nodeName|
    ensures r[|request|..|request| + |FROM|] == FROM
    ensures (forall i :: 0 <= i < |request| ==> IsAsciiByte(request[i])) ==> r[..|request|] == request
    ensures (forall i :: 0 <= i < |nodeName| ==> IsAsciiChar(nodeName[i]))
         ==> forall i :: 0 <= i < |nodeName| ==> r[|request| + |FROM| + i] as int == nodeName[i] as int
  {
    EncodeAscii(DecodeAscii(request) + " from " + nodeName)
  }

  /**
   * The bytes `handleRequest` writes: the response framed by
   * `prependLenBytes`, or nothing when framing throws (the exception is
   * caught and only logged). A response of at most 32767 bytes is framed
   * whole; one of 32768..65535 bytes is dropped; a longer one is framed
   * with only as many bytes as `(short)` of its length, if that is not
   * negative.
   */
  function HandleRequest(node: NodeManager, request: seq<byte>): (written: Option<seq<byte>>)
    ensures var n := |request| + |FROM| + |node.GetNodeName()|;
      written.Some? <==> ToShort(n) >= 0
    ensures var n := |request| + |FROM| + |node.GetNodeName()|;
      n <= MAX_PAYLOAD ==> written.Some? && |written.value| == n + HEADER_SIZE
    ensures var n := |request| + |FROM| + |node.GetNodeName()|;
      MAX_PAYLOAD < n < 0x1_0000 ==> written.None?
    ensures var response := ResponseBytes(request, node.GetNodeName());
      written.Some? ==> DecodeFrame(written.value) == Some(response[..ToShort(|response|)])
    ensures var response := ResponseBytes(request, node.GetNodeName());
      |response| <= MAX_PAYLOAD ==> written.Some? && DecodeFrame(written.value) == Some(response)
  {
    match PrependLenBytes(ResponseBytes(request, node.GetNodeName()))
    case Success(frame) => Some(frame)
    case Failure(_) => None
  }

  /**
   * Node "A" answering "hello": a 14-byte frame whose header is 00 0C
   * (12) followed by "hello from A".
   */
  lemma HelloFromA(ip: string, port: int32)
    ensures HandleRequest(NodeManager("A", ip, port), [104, 101, 108, 108, 111])
         == Some([0, 12, 104, 101, 108, 108, 111, 32, 102, 114, 111, 109, 32, 65])
  {
    assert DecodeAscii([104, 101, 108, 108, 111]) == "hello";
    var text := "hello from A";
    assert DecodeAscii([104, 101, 108, 108, 111]) + " from " + "A" == text;
    assert EncodeAscii(text) == [104, 101, 108, 108, 111, 32, 102, 114, 111, 109, 32, 65];
    var response := ResponseBytes([104, 101, 108, 108, 111], NodeManager("A", ip, port).GetNodeName());
    assert response == EncodeAscii(text);
    assert PrependLenBytes(response) == Success([0, 12] + response);
    assert [0, 12] + response == [0, 12, 104, 101, 108, 108, 111, 32, 102, 114, 111, 109, 32, 65];
  }
}
