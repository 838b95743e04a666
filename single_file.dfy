/** Reading the header of one safetensors file with two range requests:
    the 8-byte length prefix, then exactly that many header bytes. */
module SingleFile {
  import opened Types
  import opened LittleEndian
  import opened Decimal
  import opened HttpRange
  import opened Http

  /** The ceiling on the declared header length. */
  const MaxHeaderLength: nat := 25_000_000

  /** The range of the length prefix (the literal 'bytes=0-7'). */
  const PrefixRange := "bytes=0-7"

  /** The outcome of an operation that talks to the remote, with every request it
      sent, in order. */
  datatype Traced<T> = Traced(result: Result<T>, requests: seq<Request>)

  /** struct.unpack('<Q', content)[0]: exactly eight bytes, read little-endian. */
  function DecodeHeaderLength(content: seq<Byte>): (r: Result<nat>)
    ensures r.Ok? <==> |content| == 8
    ensures r.Ok? ==> r.value == FromLittleEndian(content) && r.value < U64Limit
    ensures r.Err? ==> r.error == PrefixNotEightBytes(|content|)
  {
    if |content| != 8 then Err(PrefixNotEightBytes(|content|))
    else
      EightBytesSpanU64();
      Ok(FromLittleEndian(content))
  }

  /** Every unsigned 64-bit length, written as the file layout stores it, is read back. */
  lemma DecodeHeaderLengthRoundTrip(length: nat)
    requires length < U64Limit
    ensures DecodeHeaderLength(ToLittleEndian(length, 8)) == Ok(length)
  {
    EightBytesSpanU64();
  }

  /** f'bytes=8-{8 + header_length - 1}': the window of exactly `headerLength` bytes
      that starts right after the prefix. */
  function BodyRange(headerLength: nat): (s: string)
    ensures ParseRange(s) == Some(ByteRange(8, 7 + headerLength))
    ensures ByteRange(8, 7 + headerLength).Length() == headerLength
    ensures ByteRange(8, 7 + headerLength).Valid() <==> headerLength >= 1
  {
    RangeHeaderRoundTrip(8, 8 + headerLength - 1);
    RangeHeader(8, 8 + headerLength - 1)
  }

  /** The prefix range names the first eight bytes of the file. */
  lemma PrefixRangeWindow()
    ensures PrefixRange == RangeHeader(0, 7)
    ensures ParseRange(PrefixRange) == Some(ByteRange(0, 7))
    ensures ByteRange(0, 7).Length() == 8
  {
    RangeHeaderRoundTrip(0, 7);
  }

  /** The body range is "bytes=8-" followed by the decimal of 8 + L - 1. */
  lemma BodyRangeWindow(headerLength: nat)
    ensures BodyRange(headerLength) == "bytes=8-" + NatToString(7 + headerLength)
  {
  }

  /** The first request of parse_single_file: the prefix of the file, with a Range header. */
  function PrefixRequest(remote: Remote, filename: string): (q: Request)
    ensures q.url == FileUrl(remote.repo, remote.revision, filename)
    ensures q.range == Some(PrefixRange)
  {
    FileRequest(remote, filename, Some(PrefixRange))
  }

  /** The second request of parse_single_file: the header body, with a Range header. */
  function BodyRequest(remote: Remote, filename: string, headerLength: nat): (q: Request)
    ensures q.url == FileUrl(remote.repo, remote.revision, filename)
    ensures q.range == Some(BodyRange(headerLength))
  {
    FileRequest(remote, filename, Some(BodyRange(headerLength)))
  }

  /** The start of parse_single_file: fetch the prefix and unpack it. */
  function HeaderLength(remote: Remote, filename: string): (r: Result<nat>)
    ensures var p := GetFileResponse(remote, PrefixRequest(remote, filename));
      && (r.Ok? <==> p.Ok? && |p.value| == 8)
      && (r.Ok? ==> r.value == FromLittleEndian(p.value) && r.value < U64Limit)
      && (p.Err? ==> r == Err(p.error))
      && (p.Ok? && r.Err? ==> r.error == PrefixNotEightBytes(|p.value|))
  {
    match GetFileResponse(remote, PrefixRequest(remote, filename))
    case Err(e) => Err(e)
    case Ok(content) => DecodeHeaderLength(content)
  }

  /** parse_single_file: the decoded header of `filename`, and the requests sent. */
  function ParseSingleFile(remote: Remote, filename: string): (t: Traced<Header>)
    ensures 1 <= |t.requests| <= 2
    ensures t.requests[0] == PrefixRequest(remote, filename)
    ensures forall q :: q in t.requests ==> q.url == FileUrl(remote.repo, remote.revision, filename)
  {
    var prefix := PrefixRequest(remote, filename);
    match HeaderLength(remote, filename)
    case Err(e) => Traced(Err(e), [prefix])
    case Ok(headerLength) =>
      if headerLength > MaxHeaderLength then Traced(Err(HeaderTooLarge(headerLength)), [prefix])
      else
        var body := BodyRequest(remote, filename, headerLength);
        match GetFileResponse(remote, body)
        case Err(e) => Traced(Err(e), [prefix, body])
        case Ok(content) =>
          match remote.decodeHeader(content)
          case None => Traced(Err(InvalidJsonHeader), [prefix, body])
          case Some(header) => Traced(Ok(header), [prefix, body])
  }

  /** A declared length above the ceiling fails with HeaderTooLarge, and the header
      body is never requested. */
  lemma TooLargeSkipsBody(remote: Remote, filename: string)
    requires HeaderLength(remote, filename).Ok?
    requires HeaderLength(remote, filename).value > MaxHeaderLength
    ensures ParseSingleFile(remote, filename).result == Err(HeaderTooLarge(HeaderLength(remote, filename).value))
    ensures ParseSingleFile(remote, filename).requests == [PrefixRequest(remote, filename)]
  {
  }

  /** The body is requested exactly when the prefix decodes to an accepted length, and
      then with the range of exactly that many bytes from offset 8. */
  lemma BodyRequestedIffAccepted(remote: Remote, filename: string)
    ensures var t := ParseSingleFile(remote, filename);
      |t.requests| == 2 <==> HeaderLength(remote, filename).Ok? && HeaderLength(remote, filename).value <= MaxHeaderLength
    ensures var t := ParseSingleFile(remote, filename);
      |t.requests| == 2 ==>
        var length := HeaderLength(remote, filename).value;
        t.requests[1] == BodyRequest(remote, filename, length) &&
        t.requests[1].range.Some? &&
        ParseRange(t.requests[1].range.value) == Some(ByteRange(8, 7 + length)) &&
        ByteRange(8, 7 + length).Length() == length
  {
    if HeaderLength(remote, filename).Ok? {
      BodyRangeWindow(HeaderLength(remote, filename).value);
    }
  }

  /** A header is returned if and only if both fetches went through, the prefix was
      accepted, and the decoder accepted the body; it is then the decoder's result. A
      body the decoder rejects gives InvalidJsonHeader. */
  lemma ParseSingleFileSuccess(remote: Remote, filename: string)
    ensures HeaderLength(remote, filename).Err? ==>
      ParseSingleFile(remote, filename).result == Err(HeaderLength(remote, filename).error)
    ensures var result := ParseSingleFile(remote, filename).result;
      var length := HeaderLength(remote, filename);
      result.Ok? <==>
        && length.Ok? && length.value <= MaxHeaderLength
        && GetFileResponse(remote, BodyRequest(remote, filename, length.value)).Ok?
        && remote.decodeHeader(GetFileResponse(remote, BodyRequest(remote, filename, length.value)).value).Some?
    ensures var result := ParseSingleFile(remote, filename).result;
      var length := HeaderLength(remote, filename);
      length.Ok? && length.value <= MaxHeaderLength ==>
        var body := GetFileResponse(remote, BodyRequest(remote, filename, length.value));
        && (result.Ok? ==> body.Ok? && remote.decodeHeader(body.value) == Some(result.value))
        && (body.Ok? && remote.decodeHeader(body.value).None? ==> result == Err(InvalidJsonHeader))
        && (body.Err? ==> result == Err(body.error))
  {
  }
}
