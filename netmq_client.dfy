/**
 * The client side of the protocol (`NetMQClient`): how a request is framed,
 * how the tag of a reply is read, and how each of the five calls validates
 * the reply it receives and decodes its payload. Sending and receiving are
 * not modelled; each check takes the received frames as its input.
 */
module NetMQClient {
  import opened Envelope

  /** The 4-byte tag frame of a request; reading it back gives the kind. */
  function GetRequestTypeBytes(requestType: RequestType): (b: Bytes)
    ensures |b| == 4
    ensures ReadRequestType(Some(b)) == requestType
  {
    GetBytes(requestType)
  }

  /**
   * Reads the tag of a reply frame. It never fails: a null or empty frame,
   * and a frame of one to three bytes (where `BitConverter.ToInt32` throws
   * and the exception is caught), read as Unspecified; any longer frame reads
   * as the value whose encoding is its first four bytes.
   */
  function ReadRequestType(frame: Option<Bytes>): (t: RequestType)
    ensures frame.None? || |frame.value| < 4 ==> t == Unspecified
    ensures frame.Some? && |frame.value| >= 4 ==> GetBytes(t) == frame.value[..4]
  {
    if frame.None? || |frame.value| == 0 then Unspecified
    else
      var parsed := ToInt32(frame.value);
      if parsed.Some? then
        GetBytesOfToInt32(frame.value);
        parsed.value
      else
        Unspecified
  }

  /** Reading the tag of a frame gives a named kind exactly when the frame starts with its encoding. */
  lemma ReadRequestTypeIs(frame: Bytes, kind: RequestType)
    requires kind != Unspecified
    ensures ReadRequestType(Some(frame)) == kind <==> CarriesTag(frame, kind)
  {
    if CarriesTag(frame, kind) {
      var t := ReadRequestType(Some(frame));
      assert ToInt32(GetBytes(t)) == Some(t) && ToInt32(GetBytes(kind)) == Some(kind);
    }
  }

  /** The bulk Post request: the PostLargePayload tag, then the serialized list. */
  function GetLargePayloadMessage<R(!new)>(listCodec: Codec<seq<R>>, list: seq<R>): (m: Frames)
    ensures |m| == 2 && |m[0]| == 4
    ensures ReadRequestType(Some(m[0])) == PostLargePayload
    ensures m[1] == listCodec.ser(list)
    ensures RoundTrips(listCodec) ==> listCodec.parse(m[1]) == Some(list)
  {
    [GetBytes(PostLargePayload), listCodec.ser(list)]
  }

  /**
   * The multipart Post request: the PostLargePayloadMultipart tag, then one
   * frame per record, appended in order.
   */
  method GetLargePayloadMessageMultipart<R(!new)>(recordCodec: Codec<R>, items: seq<R>) returns (m: Frames)
    ensures |m| == |items| + 1 && |m[0]| == 4
    ensures ReadRequestType(Some(m[0])) == PostLargePayloadMultipart
    ensures forall i :: 0 <= i < |items| ==> m[i + 1] == recordCodec.ser(items[i])
    ensures RoundTrips(recordCodec) ==> ParseRecords(recordCodec, m[1..]) == Returned(items)
  {
    m := [GetBytes(PostLargePayloadMultipart)];
    for i := 0 to |items|
      invariant |m| == i + 1
      invariant m[0] == GetBytes(PostLargePayloadMultipart)
      invariant forall j :: 0 <= j < i ==> m[j + 1] == recordCodec.ser(items[j])
    {
      m := m + [recordCodec.ser(items[i])];
    }
    assert m[1..] == RecordFrames(recordCodec.ser, items);
    ParseRecordFrames(recordCodec, items);
  }

  /**
   * GetSmallPayload: a reply of exactly two frames whose first frame carries
   * the GetSmallPayload tag yields the text of frame 1; anything else yields "".
   */
  function GetSmallPayloadResult(text: TextCodec, response: Frames): (s: string)
    ensures |response| == 2 && CarriesTag(response[0], GetSmallPayload) ==> s == text.decode(response[1])
    ensures !(|response| == 2 && CarriesTag(response[0], GetSmallPayload)) ==> s == ""
  {
    if |response| == 2 then
      ReadRequestTypeIs(response[0], GetSmallPayload);
      if ReadRequestType(Some(response[0])) == GetSmallPayload then
        text.decode(response[1])
      else
        ""
    else
      ""
  }

  /**
   * GetLargePayload: a two-frame reply carrying the GetLargePayload tag yields
   * the list parsed from frame 1 (or the parse exception); anything else
   * yields the empty list.
   */
  function GetLargePayloadResult<R>(listCodec: Codec<seq<R>>, response: Frames): (r: Outcome<seq<R>>)
    ensures |response| == 2 && CarriesTag(response[0], GetLargePayload) ==> r == ParseFrom(listCodec, response[1])
    ensures !(|response| == 2 && CarriesTag(response[0], GetLargePayload)) ==> r == Returned([])
  {
    if |response| == 2 then
      ReadRequestTypeIs(response[0], GetLargePayload);
      if ReadRequestType(Some(response[0])) == GetLargePayload then
        ParseFrom(listCodec, response[1])
      else
        Returned([])
    else
      Returned([])
  }

  /**
   * PostLargePayload: a two-frame reply carrying the PostLargePayload tag
   * yields the status parsed from frame 1 (or the parse exception); anything
   * else yields "".
   */
  function PostLargePayloadResult(statusCodec: Codec<StatusResponse>, response: Frames): (r: Outcome<string>)
    ensures |response| == 2 && CarriesTag(response[0], PostLargePayload) ==>
      (r.Returned? <==> statusCodec.parse(response[1]).Some?) &&
      (r.Returned? ==> statusCodec.parse(response[1]) == Some(StatusResponse(r.value)))
    ensures !(|response| == 2 && CarriesTag(response[0], PostLargePayload)) ==> r == Returned("")
  {
    if |response| == 2 then
      ReadRequestTypeIs(response[0], PostLargePayload);
      if ReadRequestType(Some(response[0])) == PostLargePayload then
        match ParseFrom(statusCodec, response[1])
        case Returned(statusResponse) => Returned(statusResponse.status)
        case ThrewParseError => ThrewParseError
      else
        Returned("")
    else
      Returned("")
  }

  /**
   * GetLargePayloadMultipart, as specified: a reply of more than one frame
   * carrying the GetLargePayloadMultipart tag yields the records parsed from
   * frames 1.. in order; anything else yields the empty list.
   */
  function GetLargePayloadMultipartResult<R>(recordCodec: Codec<R>, response: Frames): (r: Outcome<seq<R>>)
    ensures |response| > 1 && CarriesTag(response[0], GetLargePayloadMultipart) ==>
      r == ParseRecords(recordCodec, response[1..])
    ensures !(|response| > 1 && CarriesTag(response[0], GetLargePayloadMultipart)) ==> r == Returned([])
  {
    if |response| > 1 then
      ReadRequestTypeIs(response[0], GetLargePayloadMultipart);
      if ReadRequestType(Some(response[0])) == GetLargePayloadMultipart then
        ParseRecords(recordCodec, response[1..])
      else
        Returned([])
    else
      Returned([])
  }

  /**
   * GetLargePayloadMultipart, as the client runs it: after the shape and tag
   * check, a loop over frames 1.. parses and appends one record per frame;
   * the first frame that does not parse throws.
   */
  method ReadGetLargePayloadMultipartReply<R>(recordCodec: Codec<R>, response: Frames) returns (r: Outcome<seq<R>>)
    ensures r == GetLargePayloadMultipartResult(recordCodec, response)
  {
    var items: seq<R> := [];
    if |response| > 1 {
      var requestType := ReadRequestType(Some(response[0]));
      if requestType == GetLargePayloadMultipart {
        for i := 1 to |response|
          invariant |items| == i - 1
          invariant forall j :: 1 <= j < i ==> recordCodec.parse(response[j]) == Some(items[j - 1])
        {
          var parsed := recordCodec.parse(response[i]);
          if parsed.None? {
            assert !recordCodec.parse(response[1..][i - 1]).Some?;
            return ThrewParseError;
          }
          items := items + [parsed.value];
        }
        assert items == ParseRecords(recordCodec, response[1..]).value;
      }
    }
    return Returned(items);
  }

  /**
   * PostLargePayloadMultipart: a two-frame reply carrying the
   * PostLargePayloadMultipart tag yields the status parsed from frame 1 (or
   * the parse exception); anything else yields "".
   */
  function PostLargePayloadMultipartResult(statusCodec: Codec<StatusResponse>, response: Frames): (r: Outcome<string>)
    ensures |response| == 2 && CarriesTag(response[0], PostLargePayloadMultipart) ==>
      (r.Returned? <==> statusCodec.parse(response[1]).Some?) &&
      (r.Returned? ==> statusCodec.parse(response[1]) == Some(StatusResponse(r.value)))
    ensures !(|response| == 2 && CarriesTag(response[0], PostLargePayloadMultipart)) ==> r == Returned("")
  {
    if |response| == 2 then
      ReadRequestTypeIs(response[0], PostLargePayloadMultipart);
      if ReadRequestType(Some(response[0])) == PostLargePayloadMultipart then
        match ParseFrom(statusCodec, response[1])
        case Returned(statusResponse) => Returned(statusResponse.status)
        case ThrewParseError => ThrewParseError
      else
        Returned("")
    else
      Returned("")
  }
}
