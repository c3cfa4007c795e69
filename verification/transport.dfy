/**
 The client's socket side: reading whole responses from a stream that the
 peer delivers in arbitrary chunks, checking them, and pairing a request
 with its response.  The socket is modelled by what it will deliver: the
 bytes the peer sends before closing, and the sizes of the segments it
 sends them in, each `recv` returning at most the requested number of bytes
 from the current segment.  What the client writes is returned as bytes.
 */
module Transport {
  import opened Results
  import opened Struct
  import opened Constants
  import opened Codec

  /**
   What successive reads will see: the bytes still to arrive before the peer
   closes, and how they are segmented.  A zero or missing segment size means
   the rest arrives in one segment.
   */
  datatype Stream = Stream(data: Bytes, segments: seq<nat>)

  /** Every byte the client can still read. */
  function Avail(s: Stream): Bytes {
    s.data
  }

  /**
   `socket.recv(n)`: at most `n` bytes, taken from the current segment.  It
   returns nothing exactly when the peer has closed with nothing left, and
   otherwise a non-empty prefix of what is left, after which the rest is
   still to be read.
   */
  function Recv(s: Stream, n: nat): (r: (Bytes, Stream))
    requires n > 0
    ensures |r.0| == 0 <==> |Avail(s)| == 0
    ensures |r.0| <= n && |r.0| <= |Avail(s)| && r.0 == Avail(s)[..|r.0|]
    ensures Avail(r.1) == Avail(s)[|r.0|..]
  {
    var seg := if |s.segments| > 0 && s.segments[0] > 0 then s.segments[0] else |s.data|;
    var k := Min(n, Min(seg, |s.data|));
    var segments := if |s.segments| == 0 then [] else if k < s.segments[0] then [s.segments[0] - k] + s.segments[1..] else s.segments[1..];
    (s.data[..k], Stream(s.data[k..], segments))
  }

  function Min(a: nat, b: nat): (m: nat)
    ensures m <= a && m <= b && (m == a || m == b)
  {
    if a <= b then a else b
  }

  /**
   The loops that read the 24-byte header and then the body: read until `n`
   bytes have arrived, failing with an end-of-file error on an empty read.
   Whatever the chunking, this succeeds exactly when `n` bytes are left and
   returns the first `n` of them.
   */
  function ReadExactly(s: Stream, n: nat): (r: Result<(Bytes, Stream), ClientError>)
    ensures r.Ok? <==> n <= |Avail(s)|
    ensures r.Ok? ==> r.value.0 == Avail(s)[..n] && Avail(r.value.1) == Avail(s)[n..]
    ensures r.Err? ==> r.error == EofError
    decreases n
  {
    if n == 0 then Ok(([], s))
    else
      var (data, s1) := Recv(s, n);
      if |data| == 0 then Err(EofError)
      else
        match ReadExactly(s1, n - |data|)
        case Err(e) => Err(e)
        case Ok((more, s2)) =>
          ReadStep(Avail(s), data, Avail(s1), more, Avail(s2), n);
          Ok((data + more, s2))
  }

  /** A first read followed by the reads for the rest is one read of the whole. */
  lemma ReadStep(a: Bytes, data: Bytes, a1: Bytes, more: Bytes, a2: Bytes, n: nat)
    requires |data| <= n <= |a| && data == a[..|data|] && a1 == a[|data|..]
    requires n - |data| <= |a1| && more == a1[..n - |data|] && a2 == a1[n - |data|..]
    ensures data + more == a[..n] && a2 == a[n..]
  {
    SuffixSlices(a, |data|, n - |data|);
    JoinSlices(a, |data|, n);
  }

  /** The fields `_handleKeyedResponse` returns. */
  datatype Response = Response(opcode: int, opq: int, cas: int, keylen: int, extralen: int, body: Bytes)

  /** Whether a magic byte is one the reader accepts: a response's, or a request's. */
  predicate MagicAccepted(m: int) {
    m == RES_MAGIC_BYTE || m == REQ_MAGIC_BYTE
  }

  /**
   `_handleKeyedResponse`: read a header and its body, then check the magic
   byte, then the opaque value when one is expected, then the status.  The
   body is read before any check, so a rejected response is still consumed.
   */
  function HandleKeyedResponse(s: Stream, myopaque: Option<int>): (r: Result<(Response, Stream), ClientError>)
    ensures |Avail(s)| < MIN_RECV_PACKET ==> r == Err(EofError)
    ensures r.Err? ==> !r.error.PackError?
    ensures r.Ok? ==> |Avail(r.value.1)| + MIN_RECV_PACKET <= |Avail(s)|
    ensures r.Ok? ==>
      var h := DecodeHeader(Avail(s)[..MIN_RECV_PACKET]);
      && MagicAccepted(h.magic)
      && (myopaque.Some? ==> h.opq == myopaque.value)
      && h.vbucketOrStatus == 0
      && MIN_RECV_PACKET + h.bodylen <= |Avail(s)|
      && r.value.0.body == Avail(s)[MIN_RECV_PACKET..MIN_RECV_PACKET + h.bodylen]
      && r.value.0.opq == h.opq
      && Avail(r.value.1) == Avail(s)[MIN_RECV_PACKET + h.bodylen..]
  {
    match ReadExactly(s, MIN_RECV_PACKET)
    case Err(e) => Err(e)
    case Ok((hb, s1)) =>
      var h := DecodeHeader(hb);
      match ReadExactly(s1, h.bodylen)
      case Err(e) => Err(e)
      case Ok((body, s2)) =>
        SuffixSlices(Avail(s), MIN_RECV_PACKET, h.bodylen);
        if !MagicAccepted(h.magic) then Err(BadMagic(h.magic))
        else if myopaque.Some? && h.opq != myopaque.value then Err(OpaqueMismatch(myopaque.value, h.opq))
        else if h.vbucketOrStatus != 0 then Err(ServerError(h.vbucketOrStatus, body))
        else Ok((Response(h.opcode, h.opq, h.cas, h.keylen, h.extralen, body), s2))
  }

  /** The header a server puts on a response carrying `body`. */
  function ResponseHeader(opcode: byte, status: int, opq: int, cas: int, keylen: int, extralen: int, body: Bytes): Header {
    Header(RES_MAGIC_BYTE, opcode, keylen, extralen, 0, status, |body|, opq, cas)
  }

  /** The bytes of one response: its header followed by its body. */
  function ResponseFrame(h: Header, body: Bytes): (r: Bytes)
    requires HeaderFits(h)
    ensures |r| == MIN_RECV_PACKET + |body|
  {
    EncodeHeader(h).value + body
  }

  /**
   Reading one well-formed response frame, however it is chunked: a wrong
   opaque is rejected, a non-zero status becomes the server error carrying
   the body, and otherwise the fields come back as sent with exactly the
   frame consumed.
   */
  lemma HandleResponseFrame(s: Stream, h: Header, body: Bytes, tail: Bytes, myopaque: Option<int>)
    requires HeaderFits(h) && h.magic == RES_MAGIC_BYTE && h.bodylen == |body|
    requires Avail(s) == ResponseFrame(h, body) + tail
    ensures myopaque.Some? && myopaque.value != h.opq ==>
      HandleKeyedResponse(s, myopaque) == Err(OpaqueMismatch(myopaque.value, h.opq))
    ensures (myopaque.None? || myopaque.value == h.opq) && h.vbucketOrStatus != 0 ==>
      HandleKeyedResponse(s, myopaque) == Err(ServerError(h.vbucketOrStatus, body))
    ensures (myopaque.None? || myopaque.value == h.opq) && h.vbucketOrStatus == 0 ==>
      && HandleKeyedResponse(s, myopaque).Ok?
      && HandleKeyedResponse(s, myopaque).value.0 == Response(h.opcode, h.opq, h.cas, h.keylen, h.extralen, body)
      && Avail(HandleKeyedResponse(s, myopaque).value.1) == tail
  {
    var hb := EncodeHeader(h).value;
    var a := Avail(s);
    assert a[..MIN_RECV_PACKET] == hb;
    assert a[MIN_RECV_PACKET..] == body + tail;
    HeaderRoundTrip(h);
    SuffixSlices(a, MIN_RECV_PACKET, |body|);
    assert (body + tail)[..|body|] == body && (body + tail)[|body|..] == tail;
  }

  /** A stream holding fewer than 24 bytes ends every read with an end-of-file error. */
  lemma ShortStreamIsEof(s: Stream, myopaque: Option<int>)
    requires |Avail(s)| < MIN_RECV_PACKET
    ensures HandleKeyedResponse(s, myopaque) == Err(EofError)
  {
  }

  /** `_handleSingleResponse`: the opaque, the CAS value and the body of one response. */
  datatype Single = Single(opq: int, cas: int, body: Bytes)

  function HandleSingleResponse(s: Stream, myopaque: Option<int>): (r: Result<(Single, Stream), ClientError>)
    ensures r.Ok? <==> HandleKeyedResponse(s, myopaque).Ok?
    ensures r.Err? ==> !r.error.PackError?
    ensures r.Ok? ==> |Avail(r.value.1)| < |Avail(s)|
    ensures r.Ok? ==> var (resp, rest) := HandleKeyedResponse(s, myopaque).value;
      r.value == (Single(resp.opq, resp.cas, resp.body), rest)
  {
    var (resp, rest) :- HandleKeyedResponse(s, myopaque);
    Ok((Single(resp.opq, resp.cas, resp.body), rest))
  }

  // ---------------------------------------------------------------------
  // One request, one response.

  /** What a completed command leaves behind: the request written, the response read, the rest of the stream. */
  datatype Exchange = Exchange(sent: Bytes, reply: Single, rest: Stream)

  /**
   `_sendCmd` followed by `_handleSingleResponse(opaque)`.  When it succeeds
   the reply carries the opaque value the request was sent with.
   */
  function Transact(cmd: int, key: Bytes, val: Bytes, extras: Bytes, cas: int, opq: int, s: Stream)
    : (r: Result<Exchange, ClientError>)
    ensures r.Ok? ==> SendCmd(cmd, key, val, opq, extras, cas) == Ok(r.value.sent)
    ensures r.Ok? ==> (r.value.reply.opq == opq
      && DecodeHeader(r.value.sent[..MIN_RECV_PACKET]).opq == opq)
    ensures SendCmd(cmd, key, val, opq, extras, cas).Err? <==> r.Err? && r.error.PackError?
  {
    match SendCmd(cmd, key, val, opq, extras, cas)
    case Err(e) => Err(e)
    case Ok(sent) =>
      match HandleSingleResponse(s, Some(opq))
      case Err(e) => Err(e)
      case Ok((reply, rest)) => Ok(Exchange(sent, reply, rest))
  }

  /**
   The opaque value `_doCmd` and `stats` draw: `randint(0, 2**32)`, whose
   upper bound is inclusive, so one draw in 2**32 + 1 is too wide for the
   header's 32-bit field.
   */
  predicate OpaqueDrawAsWritten(opq: int) {
    0 <= opq <= 0x1_0000_0000
  }

  /** The draw the header can carry: `randint(0, 2**32 - 1)`. */
  predicate OpaqueDraw(opq: int) {
    0 <= opq <= 0xFFFF_FFFF
  }

  /** `_doCmd` with the as-written draw. */
  function DoCmdAsWritten(cmd: int, key: Bytes, val: Bytes, extras: Bytes, cas: int, opq: int, s: Stream)
    : Result<Exchange, ClientError>
    requires OpaqueDrawAsWritten(opq)
  {
    Transact(cmd, key, val, extras, cas, opq, s)
  }

  /** The largest as-written draw makes every command fail before anything is sent. */
  lemma OpaqueDrawAsWrittenOverflows(cmd: int, key: Bytes, val: Bytes, extras: Bytes, cas: int, s: Stream)
    ensures OpaqueDrawAsWritten(0x1_0000_0000)
    ensures DoCmdAsWritten(cmd, key, val, extras, cas, 0x1_0000_0000, s).Err?
    ensures DoCmdAsWritten(cmd, key, val, extras, cas, 0x1_0000_0000, s).error.PackError?
  {
  }

  /**
   `_doCmd` with the corrected draw: the request is written whenever the
   command's own fields fit, whatever the draw.
   */
  function DoCmd(cmd: int, key: Bytes, val: Bytes, extras: Bytes, cas: int, opq: int, s: Stream)
    : (r: Result<Exchange, ClientError>)
    requires OpaqueDraw(opq)
    ensures r.Err? && r.error.PackError? ==>
      !(0 <= cmd < 0x100 && |key| < 0x1_0000 && |extras| < 0x100
        && |key| + |extras| + |val| < 0x1_0000_0000 && 0 <= cas < 0x1_0000_0000_0000_0000)
    ensures r.Ok? ==> r.value.reply.opq == opq
  {
    Transact(cmd, key, val, extras, cas, opq, s)
  }
}
