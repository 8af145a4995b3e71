# NetMQ request/response framing and dispatch

This project models the small protocol shared by `NetMQClient` and
`NetMQServer`, the NetMQ (ZeroMQ REQ/REP) part of a benchmark that moves
meteorite-landing records between a client and a server. Every message is a
sequence of frames. Frame 0 holds a `RequestType` tag: a C# `int` written by
`BitConverter.GetBytes`, which the model takes as little-endian. Any further
frames are the payload.

- The server reads the tag of a request's first frame. It dispatches on the
  tag and answers with a reply whose frame 0 echoes the tag. Unspecified and
  every unknown value get a one-frame reply that holds tag 0.
- The client checks the frame count and the echoed tag of each reply. It then
  decodes the payload, or returns an empty string or empty list.

Modules:

- `Envelope` (envelope.dfy): bytes, frames and `Int32`; the tag constants;
  `BitConverter.GetBytes`/`ToInt32`; NetMQ's network-order `Append(int)`; the
  Protocol Buffers and text encodings; and the multipart record frames.
- `NetMQClient` (netmq_client.dfy): the tag codec, the two request builders,
  and the reply checks of the five calls.
- `NetMQServer` (netmq_server.dfy): the tag reader, the six reply builders,
  the dispatch, and one turn of the server loop.
- `Exchange` (exchange.dfy): end-to-end properties. The transport delivers the
  frames that were sent, so the client checks the server's reply to the
  client's own request.

The generated Protocol Buffers code (`ToByteArray`, `Parser.ParseFrom`) and
NetMQ's string frames (`Append(string)`, `ConvertToString`) are not shown.
They enter the model as parameters: `Codec` and `TextCodec` values that hold
the two directions. Their round-trip property (`RoundTrips`, `ValidCodecs`) is
a precondition of the end-to-end lemmas. It is not an axiom. A parse that
fails is `None`. The exception it raises is not caught by the client, so a
call that hits it ends in `ThrewParseError`.

The fixed sample dataset is a parameter `dataset`. It stands for both
`MeteoriteLandingData.GrpcMeteoriteLandingList` (the bulk reply) and
`MeteoriteLandingData.GrpcMeteoriteLandings` (the multipart reply). The model
takes them to hold the same records; that data file is not part of this model.

Points where the code decides the behaviour:

- A decoded tag is any 32-bit value. The C# enum cast does not range-check,
  so an out-of-range value is not turned into Unspecified while decoding.
  Only the server's `default:` branch and the client's equality checks treat
  it as unknown.
- The fallback reply always holds tag 0. It does not echo the tag that was
  received. `GetUnspecifiedRequestMessage` writes it with NetMQ's
  `Append(int)`, which uses network byte order. For 0 that is the same four
  zero bytes as the little-endian form.
- The multipart Get accepts any reply with more than one frame. An empty
  dataset gives a one-frame reply, and the client's check turns it into the
  same empty list.

## Model

| member | source | states |
|---|---|---|
| `Envelope.ToInt32` | RESTvsGRPC/NetMQClient.cs:187 | `BitConverter.ToInt32(b, 0)` succeeds exactly when the buffer holds at least four bytes |
| `Envelope.GetBytes` | RESTvsGRPC/NetMQClient.cs:171-174 | encoding any `int` gives exactly 4 bytes, and reading them back gives the same `int` |
| `Envelope.GetBytesOfToInt32` | RESTvsGRPC/NetMQClient.cs:187-189 | the first four bytes of any long-enough frame are exactly the encoding of the value read from them (the converse round trip) |
| `Envelope.ToInt32ReadsFirstFourBytes` | RESTvsGRPC/NetMQClient.cs:187 | trailing bytes are ignored: frames that agree on their first four bytes read as the same value |
| `Envelope.NetworkOrderGetBytes` | NetMQApi/NetMQServer.cs:173 | NetMQ's `Append(int)` writes 4 bytes, the little-endian encoding reversed |
| `Envelope.ParseFrom` | RESTvsGRPC/NetMQClient.cs:100-102 | a call that parses a frame returns a value exactly when the frame parses, and then that value; otherwise the parse exception escapes |
| `Envelope.ParseRecordsSpec` | RESTvsGRPC/NetMQClient.cs:126-129 | reading a multipart payload succeeds exactly when every frame parses, and then has one record per frame, element i from frame i |
| `Envelope.ParseRecordFrames` | NetMQApi/NetMQServer.cs:184-187 | with a round-tripping codec, parsing the one-frame-per-record form of a list gives the same list back, in order |
| `NetMQClient.GetRequestTypeBytes` | RESTvsGRPC/NetMQClient.cs:171-174 | the request tag frame is exactly 4 bytes, and `ReadRequestType` reads it back as the same kind |
| `NetMQClient.ReadRequestType` | RESTvsGRPC/NetMQClient.cs:176-197 | never fails: a null, empty or 1-3 byte frame (the caught exception) gives Unspecified; otherwise the result is the value whose encoding is the frame's first four bytes |
| `NetMQClient.ReadRequestTypeIs` | RESTvsGRPC/NetMQClient.cs:48-50 | for a named kind, the tag check passes if and only if the frame starts with that kind's 4-byte encoding |
| `NetMQClient.GetLargePayloadMessage` | RESTvsGRPC/NetMQClient.cs:199-208 | the bulk Post request is exactly two frames: a 4-byte tag read as PostLargePayload, then `Ser(list)`, which parses back to the posted list |
| `NetMQClient.GetLargePayloadMessageMultipart` | RESTvsGRPC/NetMQClient.cs:210-222 | the multipart Post request has 1+n frames: a 4-byte PostLargePayloadMultipart tag, then frame i+1 = Ser(items[i]) in order, which parse back to the items |
| `NetMQClient.GetSmallPayloadResult` | RESTvsGRPC/NetMQClient.cs:46-56 | frame 1's text is returned exactly when the reply has 2 frames and frame 0 carries the GetSmallPayload tag; otherwise `""` |
| `NetMQClient.GetLargePayloadResult` | RESTvsGRPC/NetMQClient.cs:70-82 | for a 2-frame reply carrying the GetLargePayload tag, the list parsed from frame 1 (or the parse exception); otherwise the empty list |
| `NetMQClient.PostLargePayloadResult` | RESTvsGRPC/NetMQClient.cs:94-106 | for a 2-frame reply carrying the PostLargePayload tag, the status of the `StatusResponse` parsed from frame 1 (or the parse exception); otherwise `""` |
| `NetMQClient.GetLargePayloadMultipartResult` | RESTvsGRPC/NetMQClient.cs:114-133 | for a reply with more than one frame and the GetLargePayloadMultipart tag, the records parsed from frames 1.. in order; otherwise the empty list |
| `NetMQClient.ReadGetLargePayloadMultipartReply` | RESTvsGRPC/NetMQClient.cs:120-133 | the client's loop over frames 1.. computes exactly that result, throwing at the first frame that does not parse |
| `NetMQClient.PostLargePayloadMultipartResult` | RESTvsGRPC/NetMQClient.cs:145-157 | for a 2-frame reply carrying the PostLargePayloadMultipart tag, the status parsed from frame 1 (or the parse exception); otherwise `""` |
| `NetMQServer.ParseRequestType` | NetMQApi/NetMQServer.cs:84-103 | never fails: null, empty or short input gives Unspecified; otherwise the value whose encoding is the first four bytes |
| `NetMQServer.ParseRequestTypeOfTag` | NetMQApi/NetMQServer.cs:93-95 | a frame that starts with a kind's encoding is read as that kind, whatever the kind's value |
| `NetMQServer.GetSmallPayloadMessage` | NetMQApi/NetMQServer.cs:137-145 | 2 frames: the echoed GetSmallPayload tag, then exactly `Encode("API Version 1.0")`, which decodes back to that text |
| `NetMQServer.GetLargePayloadMessage` | NetMQApi/NetMQServer.cs:147-156 | 2 frames: the echoed GetLargePayload tag, then exactly `Ser(dataset)`, which parses back to the whole dataset |
| `NetMQServer.PostLargePayloadMessage` | NetMQApi/NetMQServer.cs:158-167 | 2 frames: the echoed PostLargePayload tag, then exactly `Ser(StatusResponse{"SUCCESS"})`, which parses back to that status |
| `NetMQServer.GetUnspecifiedRequestMessage` | NetMQApi/NetMQServer.cs:169-176 | exactly one frame, four zero bytes, which is the Unspecified tag |
| `NetMQServer.GetLargePayloadMultipartReply` | NetMQApi/NetMQServer.cs:178-190 | 1+N frames for N records: the echoed GetLargePayloadMultipart tag, then frame i+1 = Ser(dataset[i]), which parse back to the dataset in order |
| `NetMQServer.GetLargePayloadMessageMultipart` | NetMQApi/NetMQServer.cs:178-190 | the server's foreach over the dataset builds exactly that reply |
| `NetMQServer.PostLargePayloadMessageMultipart` | NetMQApi/NetMQServer.cs:192-201 | 2 frames: the echoed PostLargePayloadMultipart tag, then exactly `Ser(StatusResponse{"SUCCESS"})`, which parses back to that status |
| `NetMQServer.SendResponse` | NetMQApi/NetMQServer.cs:113-134 | dispatch is total: each of the five kinds gets a reply whose 4-byte frame 0 carries that kind, with 2 frames (or 1+N for the multipart Get); 0 and every other value get the one-frame `[0,0,0,0]` fallback |
| `NetMQServer.HandleRequest` | NetMQApi/NetMQServer.cs:75-77 | when the tag read from frame 0 is one of the five kinds, the reply's frame 0 is the first four bytes of the request's frame 0; otherwise (including a frame 0 shorter than four bytes) the reply is the fallback `[[0,0,0,0]]` |
| `NetMQServer.HandleRequestReadsOnlyTag` | NetMQApi/NetMQServer.cs:71-77 | only `bytes[0]` is read: requests that agree on the first four bytes of frame 0 get the same reply, whatever payload they carry |
| `Exchange.TagOnlyRequest` | RESTvsGRPC/NetMQClient.cs:42 | the one-frame request of the payload-free calls, read back by the tag reader as the requested kind |
| `Exchange.DecodersAgree` | NetMQApi/NetMQServer.cs:84-103 | the server's `ParseRequestType` and the client's `ReadRequestType` read every frame alike |
| `Exchange.ServerSelectsHandler` | NetMQApi/NetMQServer.cs:113-129 | a request whose frame 0 carries a kind is answered by that kind's handler |
| `Exchange.ClientTagIsCarried` | RESTvsGRPC/NetMQClient.cs:176-197 | a frame the client reads as a named kind starts with that kind's encoding |
| `Exchange.GetSmallPayloadExchange` | RESTvsGRPC/NetMQClient.cs:38-58 | end to end, GetSmallPayload returns "API Version 1.0" |
| `Exchange.GetLargePayloadExchange` | RESTvsGRPC/NetMQClient.cs:60-84 | end to end, GetLargePayload returns the whole dataset in order |
| `Exchange.PostLargePayloadExchange` | RESTvsGRPC/NetMQClient.cs:86-108 | end to end, PostLargePayload returns "SUCCESS" for any posted list |
| `Exchange.GetLargePayloadMultipartExchange` | RESTvsGRPC/NetMQClient.cs:110-135 | end to end, the multipart Get returns the whole dataset in order; an empty dataset gives a one-frame reply and the same empty list |
| `Exchange.PostLargePayloadMultipartExchange` | RESTvsGRPC/NetMQClient.cs:137-159 | end to end, any request with the multipart Post tag in frame 0 gets "SUCCESS", whatever records follow |
| `Exchange.PostLargePayloadMultipartCall` | RESTvsGRPC/NetMQClient.cs:141-153 | the client's request-building loop, the server and the client's check together return "SUCCESS" |
| `Exchange.GetLargePayloadMultipartCall` | RESTvsGRPC/NetMQClient.cs:116-133 | the server's building loop and the client's parsing loop together return the dataset |
| `Exchange.OneFrameReplyGivesDefaults` | RESTvsGRPC/NetMQClient.cs:46-157 | a one-frame reply, such as the fallback, gives every call its empty default |
| `Exchange.UnknownTagGivesDefaults` | NetMQApi/NetMQServer.cs:130-133 | a request whose tag is not one of the five kinds gets `[[0,0,0,0]]`, read as Unspecified, and all five calls return their empty defaults (`""` or the empty list) |
| `Exchange.MismatchedTagGivesDefaults` | RESTvsGRPC/NetMQClient.cs:48-150 | a reply whose frame 0 carries another kind is rejected by every call that did not ask for that kind |
| `Exchange.CarriesOneTag` | RESTvsGRPC/NetMQClient.cs:171-174 | distinct kinds have distinct encodings, so a frame carries at most one tag |

## Left out

- Socket I/O (`RequestSocket`, `ResponseSocket`, `Connect`, `Bind`, `SendFrame`, `SendMultipartMessage`, `ReceiveMultipartMessage`, `TryReceiveMultipartBytes`): this is NetMQ transport. The model's transport hands over the frames that were sent, unchanged.
- The `response != null` guards: `ReceiveMultipartMessage` always returns a message, so a reply is always a frame sequence here.
- `Task.Run`/`async` wrappers, the `StartLoop` poll loop with its 10 ms timeout, and `Start`/`Stop` with the `CancellationTokenSource` field: these are background-thread concurrency and cancellation. One turn of the loop is modelled as `NetMQServer.HandleRequest`.
- The client's `_client` socket field, its constructor and `Dispose`: socket lifetime only.
- Protocol Buffers encoding and NetMQ text encoding: these are foreign code. They are parameters with an assumed round trip.
- `dataset`: one parameter stands for both `MeteoriteLandingData.GrpcMeteoriteLandingList` (bulk reply) and `MeteoriteLandingData.GrpcMeteoriteLandings` (multipart reply); the data file is not part of this model, so the model takes the two to hold the same records. The end-to-end lemmas that return the dataset rely on this; a divergence between the two lists is not captured.
- `NetMQMessage` itself: a message being built is its frame sequence, and `Append` adds one frame at the end.
- `Console.Error` logging in the catch blocks, and both `Program.cs` entry points: glue with no protocol content.
