/**
 * One request/reply exchange between `NetMQClient` and `NetMQServer`. The
 * transport delivers the frames that were sent, unchanged, so the reply the
 * client checks is the server's reply to the client's request. With codecs
 * that round-trip, every call gets back what the server meant to send; a
 * one-frame reply, such as the fallback, gives every call its empty default.
 */
module Exchange {
  import opened Envelope
  import NetMQClient
  import NetMQServer

  /** The one-frame request of the four calls that send no payload. */
  function TagOnlyRequest(kind: RequestType): (request: Frames)
    ensures |request| == 1 && NetMQClient.ReadRequestType(Some(request[0])) == kind
  {
    [NetMQClient.GetRequestTypeBytes(kind)]
  }

  /** Both ends read a tag frame the same way. */
  lemma DecodersAgree(frame: Option<Bytes>)
    ensures NetMQClient.ReadRequestType(frame) == NetMQServer.ParseRequestType(frame)
  {
  }

  /** The server answers a request whose frame 0 carries a kind with that kind's handler. */
  lemma {:induction false} ServerSelectsHandler<R(!new)>(codecs: Codecs<R>, dataset: seq<R>, request: Frames, kind: RequestType)
    requires |request| >= 1 && CarriesTag(request[0], kind)
    ensures NetMQServer.HandleRequest(codecs, dataset, request) == NetMQServer.SendResponse(codecs, dataset, kind)
  {
    NetMQServer.ParseRequestTypeOfTag(request[0], kind);
  }

  /** A frame the client reads as a kind other than Unspecified carries that kind's encoding. */
  lemma {:induction false} ClientTagIsCarried(frame: Bytes, kind: RequestType)
    requires kind != Unspecified && NetMQClient.ReadRequestType(Some(frame)) == kind
    ensures CarriesTag(frame, kind)
  {
    NetMQClient.ReadRequestTypeIs(frame, kind);
  }

  /** GetSmallPayload end to end: the client receives "API Version 1.0". */
  lemma {:induction false} GetSmallPayloadExchange<R(!new)>(codecs: Codecs<R>, dataset: seq<R>)
    requires ValidCodecs(codecs)
    ensures NetMQClient.GetSmallPayloadResult(codecs.text,
              NetMQServer.HandleRequest(codecs, dataset, TagOnlyRequest(GetSmallPayload)))
            == NetMQServer.SmallPayload
  {
    var request := TagOnlyRequest(GetSmallPayload);
    ClientTagIsCarried(request[0], GetSmallPayload);
    ServerSelectsHandler(codecs, dataset, request, GetSmallPayload);
  }

  /** GetLargePayload end to end: the client receives the whole dataset, in order. */
  lemma {:induction false} GetLargePayloadExchange<R(!new)>(codecs: Codecs<R>, dataset: seq<R>)
    requires ValidCodecs(codecs)
    ensures NetMQClient.GetLargePayloadResult(codecs.recordList,
              NetMQServer.HandleRequest(codecs, dataset, TagOnlyRequest(GetLargePayload)))
            == Returned(dataset)
  {
    var request := TagOnlyRequest(GetLargePayload);
    ClientTagIsCarried(request[0], GetLargePayload);
    ServerSelectsHandler(codecs, dataset, request, GetLargePayload);
  }

  /** PostLargePayload end to end: whatever list is posted, the client receives "SUCCESS". */
  lemma {:induction false} PostLargePayloadExchange<R(!new)>(codecs: Codecs<R>, dataset: seq<R>, posted: seq<R>)
    requires ValidCodecs(codecs)
    ensures NetMQClient.PostLargePayloadResult(codecs.status,
              NetMQServer.HandleRequest(codecs, dataset, NetMQClient.GetLargePayloadMessage(codecs.recordList, posted)))
            == Returned(NetMQServer.Success)
  {
    var request := NetMQClient.GetLargePayloadMessage(codecs.recordList, posted);
    ClientTagIsCarried(request[0], PostLargePayload);
    ServerSelectsHandler(codecs, dataset, request, PostLargePayload);
  }

  /**
   * GetLargePayloadMultipart end to end: the client receives the whole
   * dataset, in order. For an empty dataset the reply is the tag alone, which
   * the client's "more than one frame" check turns into the same empty list.
   */
  lemma {:induction false} GetLargePayloadMultipartExchange<R(!new)>(codecs: Codecs<R>, dataset: seq<R>)
    requires ValidCodecs(codecs)
    ensures NetMQClient.GetLargePayloadMultipartResult(codecs.record,
              NetMQServer.HandleRequest(codecs, dataset, TagOnlyRequest(GetLargePayloadMultipart)))
            == Returned(dataset)
    ensures dataset == [] ==>
      |NetMQServer.HandleRequest(codecs, dataset, TagOnlyRequest(GetLargePayloadMultipart))| == 1
  {
    var request := TagOnlyRequest(GetLargePayloadMultipart);
    ClientTagIsCarried(request[0], GetLargePayloadMultipart);
    ServerSelectsHandler(codecs, dataset, request, GetLargePayloadMultipart);
  }

  /**
   * PostLargePayloadMultipart end to end: for any request whose frame 0 is
   * the tag the client writes (as `GetLargePayloadMessageMultipart` builds
   * it), whatever records follow, the client receives "SUCCESS".
   */
  lemma {:induction false} PostLargePayloadMultipartExchange<R(!new)>(codecs: Codecs<R>, dataset: seq<R>, request: Frames)
    requires ValidCodecs(codecs)
    requires |request| >= 1 && request[0] == NetMQClient.GetRequestTypeBytes(PostLargePayloadMultipart)
    ensures NetMQClient.PostLargePayloadMultipartResult(codecs.status,
              NetMQServer.HandleRequest(codecs, dataset, request))
            == Returned(NetMQServer.Success)
  {
    ClientTagIsCarried(request[0], PostLargePayloadMultipart);
    ServerSelectsHandler(codecs, dataset, request, PostLargePayloadMultipart);
  }

  /**
   * The multipart Post as one call: build the request with the client's loop,
   * deliver it to the server, check the reply. The client gets "SUCCESS".
   */
  method PostLargePayloadMultipartCall<R(!new)>(codecs: Codecs<R>, dataset: seq<R>, items: seq<R>)
    returns (status: Outcome<string>)
    requires ValidCodecs(codecs)
    ensures status == Returned(NetMQServer.Success)
  {
    var request := NetMQClient.GetLargePayloadMessageMultipart(codecs.record, items);
    var reply := NetMQServer.HandleRequest(codecs, dataset, request);
    status := NetMQClient.PostLargePayloadMultipartResult(codecs.status, reply);
    PostLargePayloadMultipartExchange(codecs, dataset, request);
  }

  /**
   * The multipart Get as one call, with the server's and the client's loops:
   * the client gets the dataset back, in order.
   */
  method GetLargePayloadMultipartCall<R(!new)>(codecs: Codecs<R>, dataset: seq<R>)
    returns (items: Outcome<seq<R>>)
    requires ValidCodecs(codecs)
    ensures items == Returned(dataset)
  {
    var reply := NetMQServer.GetLargePayloadMessageMultipart(codecs.record, dataset);
    assert reply == NetMQServer.HandleRequest(codecs, dataset, TagOnlyRequest(GetLargePayloadMultipart)) by {
      ServerSelectsHandler(codecs, dataset, TagOnlyRequest(GetLargePayloadMultipart), GetLargePayloadMultipart);
    }
    items := NetMQClient.ReadGetLargePayloadMultipartReply(codecs.record, reply);
    GetLargePayloadMultipartExchange(codecs, dataset);
  }

  /** A one-frame reply, such as the server's fallback, gives every call its empty default. */
  lemma OneFrameReplyGivesDefaults<R>(codecs: Codecs<R>, reply: Frames)
    requires |reply| == 1
    ensures NetMQClient.GetSmallPayloadResult(codecs.text, reply) == ""
    ensures NetMQClient.GetLargePayloadResult(codecs.recordList, reply) == Returned([])
    ensures NetMQClient.PostLargePayloadResult(codecs.status, reply) == Returned("")
    ensures NetMQClient.GetLargePayloadMultipartResult(codecs.record, reply) == Returned([])
    ensures NetMQClient.PostLargePayloadMultipartResult(codecs.status, reply) == Returned("")
  {
  }

  /**
   * A request whose tag is Unspecified, shorter than four bytes, or any
   * value other than the five payload kinds gets the fallback, and every
   * call then returns its empty default.
   */
  lemma {:induction false} UnknownTagGivesDefaults<R(!new)>(codecs: Codecs<R>, dataset: seq<R>, request: Frames)
    requires |request| >= 1
    requires !IsPayloadKind(NetMQServer.ParseRequestType(Some(request[0])))
    ensures NetMQServer.HandleRequest(codecs, dataset, request) == [[0, 0, 0, 0]]
    ensures NetMQClient.ReadRequestType(Some([0, 0, 0, 0])) == Unspecified
    ensures NetMQClient.GetSmallPayloadResult(codecs.text, NetMQServer.HandleRequest(codecs, dataset, request)) == ""
    ensures NetMQClient.GetLargePayloadResult(codecs.recordList, NetMQServer.HandleRequest(codecs, dataset, request)) == Returned([])
    ensures NetMQClient.PostLargePayloadResult(codecs.status, NetMQServer.HandleRequest(codecs, dataset, request)) == Returned("")
    ensures NetMQClient.GetLargePayloadMultipartResult(codecs.record, NetMQServer.HandleRequest(codecs, dataset, request)) == Returned([])
    ensures NetMQClient.PostLargePayloadMultipartResult(codecs.status, NetMQServer.HandleRequest(codecs, dataset, request)) == Returned("")
  {
    OneFrameReplyGivesDefaults(codecs, NetMQServer.HandleRequest(codecs, dataset, request));
    assert [0, 0, 0, 0] == GetBytes(Unspecified);
  }

  /**
   * A reply whose frame 0 names a different kind than the call asked for is
   * rejected, whatever its frame count.
   */
  lemma {:induction false} MismatchedTagGivesDefaults<R>(codecs: Codecs<R>, reply: Frames, kind: RequestType)
    requires |reply| >= 1 && CarriesTag(reply[0], kind)
    ensures kind != GetSmallPayload ==> NetMQClient.GetSmallPayloadResult(codecs.text, reply) == ""
    ensures kind != GetLargePayload ==> NetMQClient.GetLargePayloadResult(codecs.recordList, reply) == Returned([])
    ensures kind != PostLargePayload ==> NetMQClient.PostLargePayloadResult(codecs.status, reply) == Returned("")
    ensures kind != GetLargePayloadMultipart ==>
      NetMQClient.GetLargePayloadMultipartResult(codecs.record, reply) == Returned([])
    ensures kind != PostLargePayloadMultipart ==>
      NetMQClient.PostLargePayloadMultipartResult(codecs.status, reply) == Returned("")
  {
    if kind != GetSmallPayload { CarriesOneTag(reply[0], kind, GetSmallPayload); }
    if kind != GetLargePayload { CarriesOneTag(reply[0], kind, GetLargePayload); }
    if kind != PostLargePayload { CarriesOneTag(reply[0], kind, PostLargePayload); }
    if kind != GetLargePayloadMultipart { CarriesOneTag(reply[0], kind, GetLargePayloadMultipart); }
    if kind != PostLargePayloadMultipart { CarriesOneTag(reply[0], kind, PostLargePayloadMultipart); }
  }

  /** A frame carries at most one tag: distinct kinds have distinct encodings. */
  lemma CarriesOneTag(frame: Bytes, kind: RequestType, other: RequestType)
    requires CarriesTag(frame, kind) && other != kind
    ensures !CarriesTag(frame, other)
  {
    assert ToInt32(GetBytes(other)) == Some(other) && ToInt32(GetBytes(kind)) == Some(kind);
  }
}
