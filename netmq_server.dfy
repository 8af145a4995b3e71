/**
 * The server side of the protocol (`NetMQServer`): how the tag of a request
 * is read, the dispatch on it, and the reply each handler builds. Frame 0 of
 * every reply echoes a known tag; everything else gets the one-frame
 * Unspecified reply. The fixed dataset the Get handlers serve is a parameter.
 */
module NetMQServer {
  import opened Envelope

  /** The text of the small payload. */
  const SmallPayload: string := "API Version 1.0"

  /** The status every Post handler acknowledges with. */
  const Success: string := "SUCCESS"

  /**
   * Reads the tag of a request's first frame. It never fails: null, empty or
   * one-to-three-byte input (where `BitConverter.ToInt32` throws and the
   * exception is caught) reads as Unspecified; longer input reads as the
   * value whose encoding is its first four bytes.
   */
  function ParseRequestType(requestBytes: Option<Bytes>): (t: RequestType)
    ensures requestBytes.None? || |requestBytes.value| < 4 ==> t == Unspecified
    ensures requestBytes.Some? && |requestBytes.value| >= 4 ==> GetBytes(t) == requestBytes.value[..4]
  {
    if requestBytes.None? || |requestBytes.value| == 0 then Unspecified
    else
      var parsed := ToInt32(requestBytes.value);
      if parsed.Some? then
        GetBytesOfToInt32(requestBytes.value);
        parsed.value
      else
        Unspecified
  }

  /** Reading back a frame that carries a kind's encoding gives that kind. */
  lemma ParseRequestTypeOfTag(frame: Bytes, kind: RequestType)
    requires CarriesTag(frame, kind)
    ensures ParseRequestType(Some(frame)) == kind
  {
    var t := ParseRequestType(Some(frame));
    assert ToInt32(GetBytes(t)) == Some(t) && ToInt32(GetBytes(kind)) == Some(kind);
  }

  /** GetSmallPayload reply: its tag, then the text "API Version 1.0". */
  function GetSmallPayloadMessage(text: TextCodec): (m: Frames)
    ensures |m| == 2 && CarriesTag(m[0], GetSmallPayload) && |m[0]| == 4
    ensures m[1] == text.encode(SmallPayload)
    ensures TextRoundTrips(text) ==> text.decode(m[1]) == SmallPayload
  {
    [GetBytes(GetSmallPayload), text.encode(SmallPayload)]
  }

  /** GetLargePayload reply: its tag, then the whole dataset serialized as one list. */
  function GetLargePayloadMessage<R(!new)>(listCodec: Codec<seq<R>>, dataset: seq<R>): (m: Frames)
    ensures |m| == 2 && CarriesTag(m[0], GetLargePayload) && |m[0]| == 4
    ensures m[1] == listCodec.ser(dataset)
    ensures RoundTrips(listCodec) ==> listCodec.parse(m[1]) == Some(dataset)
  {
    [GetBytes(GetLargePayload), listCodec.ser(dataset)]
  }

  /** PostLargePayload reply: its tag, then a SUCCESS status, whatever was posted. */
  function PostLargePayloadMessage(statusCodec: Codec<StatusResponse>): (m: Frames)
    ensures |m| == 2 && CarriesTag(m[0], PostLargePayload) && |m[0]| == 4
    ensures m[1] == statusCodec.ser(StatusResponse(Success))
    ensures RoundTrips(statusCodec) ==> statusCodec.parse(m[1]) == Some(StatusResponse(Success))
  {
    [GetBytes(PostLargePayload), statusCodec.ser(StatusResponse(Success))]
  }

  /**
   * The fallback reply: one frame holding Unspecified, written with NetMQ's
   * `Append(int)` (network byte order), which for 0 is the same four zero
   * bytes as the little-endian tag every other frame 0 uses.
   */
  function GetUnspecifiedRequestMessage(): (m: Frames)
    ensures |m| == 1 && m[0] == [0, 0, 0, 0]
    ensures CarriesTag(m[0], Unspecified)
  {
    [NetworkOrderGetBytes(Unspecified)]
  }

  /**
   * GetLargePayloadMultipart reply, as specified: its tag, then one frame per
   * record of the dataset, in order.
   */
  function GetLargePayloadMultipartReply<R(!new)>(recordCodec: Codec<R>, dataset: seq<R>): (m: Frames)
    ensures |m| == |dataset| + 1 && CarriesTag(m[0], GetLargePayloadMultipart) && |m[0]| == 4
    ensures forall i :: 0 <= i < |dataset| ==> m[i + 1] == recordCodec.ser(dataset[i])
    ensures RoundTrips(recordCodec) ==> ParseRecords(recordCodec, m[1..]) == Returned(dataset)
  {
    var m := [GetBytes(GetLargePayloadMultipart)] + RecordFrames(recordCodec.ser, dataset);
    assert m[1..] == RecordFrames(recordCodec.ser, dataset);
    ParseRecordFrames(recordCodec, dataset);
    m
  }

  /**
   * GetLargePayloadMultipart reply, as the server builds it: the tag frame,
   * then a loop over the dataset appending each serialized record.
   */
  method GetLargePayloadMessageMultipart<R(!new)>(recordCodec: Codec<R>, dataset: seq<R>) returns (m: Frames)
    ensures m == GetLargePayloadMultipartReply(recordCodec, dataset)
  {
    m := [GetBytes(GetLargePayloadMultipart)];
    for i := 0 to |dataset|
      invariant m == [GetBytes(GetLargePayloadMultipart)] + RecordFrames(recordCodec.ser, dataset[..i])
    {
      assert RecordFrames(recordCodec.ser, dataset[..i + 1])
          == RecordFrames(recordCodec.ser, dataset[..i]) + [recordCodec.ser(dataset[i])];
      m := m + [recordCodec.ser(dataset[i])];
    }
    assert dataset[..|dataset|] == dataset;
  }

  /** PostLargePayloadMultipart reply: its tag, then a SUCCESS status, whatever was posted. */
  function PostLargePayloadMessageMultipart(statusCodec: Codec<StatusResponse>): (m: Frames)
    ensures |m| == 2 && CarriesTag(m[0], PostLargePayloadMultipart) && |m[0]| == 4
    ensures m[1] == statusCodec.ser(StatusResponse(Success))
    ensures RoundTrips(statusCodec) ==> statusCodec.parse(m[1]) == Some(StatusResponse(Success))
  {
    [GetBytes(PostLargePayloadMultipart), statusCodec.ser(StatusResponse(Success))]
  }

  /**
   * The dispatch on the request tag. It is total: each of the five payload
   * kinds selects its own handler, whose frame 0 echoes the tag, and
   * Unspecified or any other value selects the one-frame fallback.
   */
  function SendResponse<R(!new)>(codecs: Codecs<R>, dataset: seq<R>, requestType: RequestType): (m: Frames)
    ensures |m| >= 1 && |m[0]| == 4
    ensures IsPayloadKind(requestType) ==> CarriesTag(m[0], requestType)
    ensures !IsPayloadKind(requestType) ==> m == [[0, 0, 0, 0]]
    ensures requestType == GetLargePayloadMultipart ==> |m| == |dataset| + 1
    ensures IsPayloadKind(requestType) && requestType != GetLargePayloadMultipart ==> |m| == 2
  {
    if requestType == GetSmallPayload then GetSmallPayloadMessage(codecs.text)
    else if requestType == GetLargePayload then GetLargePayloadMessage(codecs.recordList, dataset)
    else if requestType == PostLargePayload then PostLargePayloadMessage(codecs.status)
    else if requestType == GetLargePayloadMultipart then GetLargePayloadMultipartReply(codecs.record, dataset)
    else if requestType == PostLargePayloadMultipart then PostLargePayloadMessageMultipart(codecs.status)
    else GetUnspecifiedRequestMessage()
  }

  /**
   * One turn of the server loop on a received request: read the tag from
   * frame 0 only, then dispatch. Payload frames are never read, so the reply
   * depends on nothing but the first four bytes of frame 0.
   */
  function HandleRequest<R(!new)>(codecs: Codecs<R>, dataset: seq<R>, request: Frames): (m: Frames)
    requires |request| >= 1
    ensures |m| >= 1 && |m[0]| == 4
    ensures |request[0]| < 4 ==> m == [[0, 0, 0, 0]]
    ensures IsPayloadKind(ParseRequestType(Some(request[0]))) ==> m[0] == request[0][..4]
    ensures !IsPayloadKind(ParseRequestType(Some(request[0]))) ==> m == [[0, 0, 0, 0]]
  {
    SendResponse(codecs, dataset, ParseRequestType(Some(request[0])))
  }

  /** Requests that agree on the first four bytes of frame 0 get the same reply. */
  lemma HandleRequestReadsOnlyTag<R(!new)>(codecs: Codecs<R>, dataset: seq<R>, a: Frames, b: Frames)
    requires |a| >= 1 && |b| >= 1
    requires |a[0]| >= 4 && |b[0]| >= 4 && a[0][..4] == b[0][..4]
    ensures HandleRequest(codecs, dataset, a) == HandleRequest(codecs, dataset, b)
  {
    ToInt32ReadsFirstFourBytes(a[0], b[0]);
  }
}
